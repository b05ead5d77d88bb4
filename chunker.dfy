/** The sentence chunker at the top of `embedPage`: a page whose body is empty
    gives no chunks (and no work); otherwise the body is split on the regular
    expression `/\.\s/` and every piece whose `trim()` is empty is dropped.
    The kept pieces are not trimmed. */
module Chunker {

  /** JavaScript's `\s` class: the ECMAScript WhiteSpace and LineTerminator
      code points. `String.prototype.trim` strips exactly this set too. */
  predicate IsWs(c: char) {
    c == '\t' || c == '\n' || c == '\U{0B}' || c == '\U{0C}' || c == '\r' || c == ' '
    || c == '\U{A0}' || c == '\U{1680}' || ('\U{2000}' <= c <= '\U{200A}')
    || c == '\U{2028}' || c == '\U{2029}' || c == '\U{202F}' || c == '\U{205F}'
    || c == '\U{3000}' || c == '\U{FEFF}'
  }

  /** Every character is whitespace (the empty string included). */
  predicate Blank(s: string) {
    forall i :: 0 <= i < |s| ==> IsWs(s[i])
  }

  // ---------------------------------------------------------------- trim

  /** Drops the leading whitespace: what is left is a suffix of `s`, all that
      was dropped is whitespace, and what is left does not start with it. */
  function TrimStart(s: string): (r: string)
    ensures |r| <= |s| && r == s[|s| - |r|..]
    ensures forall i :: 0 <= i < |s| - |r| ==> IsWs(s[i])
    ensures r == [] || !IsWs(r[0])
    ensures r == [] <==> Blank(s)
  {
    if s != [] && IsWs(s[0]) then TrimStart(s[1..]) else s
  }

  /** Drops the trailing whitespace: what is left is a prefix of `s`, all that
      was dropped is whitespace, and what is left does not end with it. */
  function TrimEnd(s: string): (r: string)
    ensures |r| <= |s| && r == s[..|r|]
    ensures forall i :: |r| <= i < |s| ==> IsWs(s[i])
    ensures r == [] || !IsWs(r[|r| - 1])
    ensures r == [] <==> Blank(s)
  {
    if s != [] && IsWs(s[|s| - 1]) then TrimEnd(s[..|s| - 1]) else s
  }

  /** `String.prototype.trim`: the input without its leading and trailing
      whitespace. It is empty exactly when the input is all whitespace (so
      `p.trim() !== ''` holds exactly when `p` has a visible character);
      otherwise it starts and ends with a visible character. It is the input
      with only whitespace cut off before and after it, so it keeps every
      visible character of the input, in order. */
  function Trim(s: string): (r: string)
    ensures |r| <= |s|
    ensures r == [] <==> Blank(s)
    ensures r == [] || (!IsWs(r[0]) && !IsWs(r[|r| - 1]))
    ensures NonWs(r) == NonWs(s)
    ensures exists a, b :: s == a + r + b && Blank(a) && Blank(b)
  {
    var t := TrimStart(s);
    var r := TrimEnd(t);
    var lead, trail := s[..|s| - |t|], t[|r|..];
    PrefixOfSuffix(s, t, r);
    TrimStartDropsBlank(s);
    TrimEndDropsBlank(t);
    assert s == lead + r + trail && Blank(lead) && Blank(trail);
    TrimEnds(s, t, r);
    TrimStartKeepsVisible(s);
    TrimEndKeepsVisible(t);
    r
  }

  /** The two halves of `Trim` together: an all-whitespace input leaves
      nothing, and anything else is left with visible characters at both
      ends. */
  lemma TrimEnds(s: string, t: string, r: string)
    requires t == TrimStart(s) && r == TrimEnd(t)
    ensures r == [] <==> Blank(s)
    ensures r == [] || (!IsWs(r[0]) && !IsWs(r[|r| - 1]))
  {
    if t != [] {
      assert !IsWs(t[0]);
    }
    if r != [] {
      assert r[0] == t[0];
    }
  }

  /** A prefix of a suffix of `s` is `s` with a prefix and a suffix cut off. */
  lemma PrefixOfSuffix(s: string, t: string, r: string)
    requires |t| <= |s| && t == s[|s| - |t|..] && |r| <= |t| && r == t[..|r|]
    ensures s == s[..|s| - |t|] + r + t[|r|..]
  {
    assert s == s[..|s| - |t|] + t;
    assert t == r + t[|r|..];
  }

  /** What `TrimStart` cuts off is all whitespace. */
  lemma {:induction false} TrimStartDropsBlank(s: string)
    ensures Blank(s[..|s| - |TrimStart(s)|])
    decreases |s|
  {
    if s != [] && IsWs(s[0]) {
      var k := |s| - |TrimStart(s)|;
      TrimStartDropsBlank(s[1..]);
      assert s[..k] == [s[0]] + s[1..][..k - 1];
    }
  }

  /** What `TrimEnd` cuts off is all whitespace. */
  lemma {:induction false} TrimEndDropsBlank(s: string)
    ensures Blank(s[|TrimEnd(s)|..])
    decreases |s|
  {
    if s != [] && IsWs(s[|s| - 1]) {
      var init := s[..|s| - 1];
      var k := |TrimEnd(s)|;
      TrimEndDropsBlank(init);
      assert s[k..] == init[k..] + [s[|s| - 1]];
    }
  }

  /** `TrimStart` drops only whitespace. */
  lemma {:induction false} TrimStartKeepsVisible(s: string)
    ensures NonWs(TrimStart(s)) == NonWs(s)
    decreases |s|
  {
    if s != [] && IsWs(s[0]) {
      TrimStartKeepsVisible(s[1..]);
    }
  }

  /** `TrimEnd` drops only whitespace. */
  lemma {:induction false} TrimEndKeepsVisible(s: string)
    ensures NonWs(TrimEnd(s)) == NonWs(s)
    decreases |s|
  {
    if s != [] && IsWs(s[|s| - 1]) {
      var init := s[..|s| - 1];
      TrimEndKeepsVisible(init);
      NonWsAppend(init, [s[|s| - 1]]);
      assert s == init + [s[|s| - 1]];
    }
  }

  // ---------------------------------------------------------------- split

  /** A match of `/\.\s/` starts at index `i` of `s`. */
  predicate SepAt(s: string, i: int) {
    0 <= i && i + 1 < |s| && s[i] == '.' && IsWs(s[i + 1])
  }

  /** `s` contains a match of `/\.\s/`. */
  predicate HasSep(s: string) {
    exists i :: 0 <= i < |s| && SepAt(s, i)
  }

  /** `s.split(/\.\s/)`: the pieces between the matches, found left to right.
      There is always at least one piece. The first piece is the prefix of
      `s` up to the leftmost match: it contains no match, and either it is
      all of `s` (when there is just one piece) or a match follows it. */
  function Split(s: string): (r: seq<string>)
    ensures |r| >= 1 && |r[0]| <= |s| && r[0] == s[..|r[0]|]
    ensures !HasSep(r[0])
    ensures |r| == 1 ==> r[0] == s
    ensures |r| > 1 ==> SepAt(s, |r[0]|)
    decreases |s|
  {
    if |s| < 2 then
      assert forall i :: !SepAt(s, i);
      [s]
    else if SepAt(s, 0) then
      assert forall i :: !SepAt("", i);
      [""] + Split(s[2..])
    else
      var rest := Split(s[1..]);
      ConsPieceSepFree(s, rest[0]);
      [[s[0]] + rest[0]] + rest[1..]
  }

  /** A character that does not start a match, put in front of a match-free
      prefix of the rest, gives a match-free prefix. */
  lemma ConsPieceSepFree(s: string, p: string)
    requires |s| >= 2 && !SepAt(s, 0)
    requires |p| <= |s| - 1 && p == s[1..][..|p|] && !HasSep(p)
    ensures !HasSep([s[0]] + p)
    ensures [s[0]] + p == s[..|p| + 1]
  {
    var q := [s[0]] + p;
    forall i ensures !SepAt(q, i) {
      if i == 0 && |p| > 0 {
        assert q[1] == s[1];
      } else if i > 0 {
        assert !SepAt(p, i - 1);
      }
    }
  }

  /** The whitespace character that each match of `/\.\s/` consumed, in order. */
  function Seps(s: string): seq<char>
    decreases |s|
  {
    if |s| < 2 then []
    else if SepAt(s, 0) then [s[1]] + Seps(s[2..])
    else Seps(s[1..])
  }

  /** Puts pieces back together, with `.` and the next separator between
      neighbours. */
  function Join(pieces: seq<string>, seps: seq<char>): string
    requires |pieces| == |seps| + 1
  {
    if |seps| == 0 then pieces[0]
    else pieces[0] + ['.', seps[0]] + Join(pieces[1..], seps[1..])
  }

  lemma JoinConsChar(c: char, p: string, ps: seq<string>, seps: seq<char>)
    requires |ps| == |seps|
    ensures Join([[c] + p] + ps, seps) == [c] + Join([p] + ps, seps)
  {
    if |seps| > 0 {
      assert ([[c] + p] + ps)[1..] == ps == ([p] + ps)[1..];
    }
  }

  /** There is one more piece than there are matches, and every match
      consumed a whitespace character. */
  lemma {:induction false} SepsBetweenPieces(s: string)
    ensures |Split(s)| == |Seps(s)| + 1
    ensures forall i :: 0 <= i < |Seps(s)| ==> IsWs(Seps(s)[i])
    decreases |s|
  {
    if |s| >= 2 && SepAt(s, 0) {
      SepsBetweenPieces(s[2..]);
    } else if |s| >= 2 {
      SepsBetweenPieces(s[1..]);
    }
  }

  /** Re-joining the pieces with the separators the matches consumed gives
      back the input. */
  lemma {:induction false} SplitJoinRoundTrip(s: string)
    ensures |Split(s)| == |Seps(s)| + 1
    ensures Join(Split(s), Seps(s)) == s
    decreases |s|
  {
    SepsBetweenPieces(s);
    if |s| >= 2 && SepAt(s, 0) {
      SplitJoinRoundTrip(s[2..]);
      assert Split(s)[1..] == Split(s[2..]);
      assert s == ['.', s[1]] + s[2..];
    } else if |s| >= 2 {
      var rest := Split(s[1..]);
      SplitJoinRoundTrip(s[1..]);
      assert Split(s) == [[s[0]] + rest[0]] + rest[1..];
      assert rest == [rest[0]] + rest[1..];
      JoinConsChar(s[0], rest[0], rest[1..], Seps(s[1..]));
      assert s == [s[0]] + s[1..];
    }
  }

  /** No piece contains a match. */
  lemma {:induction false} PiecesSepFree(s: string)
    ensures forall p :: p in Split(s) ==> !HasSep(p)
    decreases |s|
  {
    if |s| < 2 {
      assert forall i :: !SepAt(s, i);
    } else if SepAt(s, 0) {
      PiecesSepFree(s[2..]);
      assert Split(s) == [""] + Split(s[2..]);
      assert forall i :: !SepAt("", i);
    } else {
      var rest := Split(s[1..]);
      PiecesSepFree(s[1..]);
      assert Split(s) == [Split(s)[0]] + rest[1..];
      assert forall p :: p in rest[1..] ==> p in rest;
    }
  }

  /** Splitting loses nothing: re-joining the pieces with the separators the
      matches consumed gives back the input; every consumed separator is
      whitespace; no piece contains a match. */
  lemma SplitJoin(s: string)
    ensures |Split(s)| == |Seps(s)| + 1
    ensures forall i :: 0 <= i < |Seps(s)| ==> IsWs(Seps(s)[i])
    ensures Join(Split(s), Seps(s)) == s
    ensures forall p :: p in Split(s) ==> !HasSep(p)
  {
    SepsBetweenPieces(s);
    SplitJoinRoundTrip(s);
    PiecesSepFree(s);
  }

  lemma {:induction false} SplitOfSepFree(p: string)
    requires !HasSep(p)
    ensures Split(p) == [p] && Seps(p) == []
    decreases |p|
  {
    if |p| >= 2 {
      assert !SepAt(p, 0);
      forall i ensures !SepAt(p[1..], i) {
        assert SepAt(p[1..], i) ==> SepAt(p, i + 1);
      }
      SplitOfSepFree(p[1..]);
      assert [p[0]] + p[1..] == p;
    }
  }

  lemma {:induction false} SplitAfterPiece(p: string, w: char, t: string)
    requires !HasSep(p) && IsWs(w)
    ensures Split(p + ['.', w] + t) == [p] + Split(t)
    ensures Seps(p + ['.', w] + t) == [w] + Seps(t)
    decreases |p|
  {
    var s := p + ['.', w] + t;
    if p == [] {
      assert SepAt(s, 0) && s[2..] == t;
    } else {
      assert !SepAt(p, 0);
      assert !SepAt(s, 0) by {
        if |p| == 1 { assert s[1] == '.'; } else { assert s[1] == p[1]; }
      }
      forall i ensures !SepAt(p[1..], i) {
        assert SepAt(p[1..], i) ==> SepAt(p, i + 1);
      }
      assert s[1..] == p[1..] + ['.', w] + t;
      SplitAfterPiece(p[1..], w, t);
      assert [p[0]] + p[1..] == p;
    }
  }

  /** The split is the only way to cut `s` into match-free pieces separated by
      `.` and one whitespace character: any such cut is the one `Split` and
      `Seps` give. */
  lemma {:induction false} SplitUnique(pieces: seq<string>, seps: seq<char>)
    requires |pieces| == |seps| + 1
    requires forall i :: 0 <= i < |seps| ==> IsWs(seps[i])
    requires forall p :: p in pieces ==> !HasSep(p)
    ensures Split(Join(pieces, seps)) == pieces
    ensures Seps(Join(pieces, seps)) == seps
    decreases |seps|
  {
    if |seps| == 0 {
      SplitOfSepFree(pieces[0]);
    } else {
      assert pieces[0] in pieces;
      SplitUnique(pieces[1..], seps[1..]);
      SplitAfterPiece(pieces[0], seps[0], Join(pieces[1..], seps[1..]));
      assert [pieces[0]] + pieces[1..] == pieces;
      assert [seps[0]] + seps[1..] == seps;
    }
  }

  // ---------------------------------------------------------------- filter

  /** The `.filter(p => p.trim() !== '')` step: a piece is kept exactly when
      its trim is not empty, and nothing else is produced. */
  function KeepNonBlank(pieces: seq<string>): (r: seq<string>)
    ensures |r| <= |pieces|
    ensures forall c :: c in r <==> c in pieces && Trim(c) != ""
  {
    if pieces == [] then []
    else
      var rest := KeepNonBlank(pieces[1..]);
      assert forall c :: c in pieces <==> c == pieces[0] || c in pieces[1..];
      (if Trim(pieces[0]) != "" then [pieces[0]] else []) + rest
  }

  /** `a` is `b` with some elements left out, order kept. */
  predicate IsSubsequence(a: seq<string>, b: seq<string>)
    decreases |b|
  {
    if a == [] then true
    else if b == [] then false
    else if a[0] == b[0] then IsSubsequence(a[1..], b[1..])
    else IsSubsequence(a, b[1..])
  }

  lemma {:induction false} KeepNonBlankInOrder(pieces: seq<string>)
    ensures IsSubsequence(KeepNonBlank(pieces), pieces)
    decreases |pieces|
  {
    if pieces != [] {
      var rest := KeepNonBlank(pieces[1..]);
      KeepNonBlankInOrder(pieces[1..]);
      if Trim(pieces[0]) != "" {
        var r := [pieces[0]] + rest;
        assert KeepNonBlank(pieces) == r;
        assert r[0] == pieces[0] && r[1..] == rest;
      } else {
        assert KeepNonBlank(pieces) == rest;
        SubsequenceSkip(rest, pieces);
      }
    }
  }

  lemma {:induction false} SubsequenceSkip(a: seq<string>, b: seq<string>)
    requires b != [] && IsSubsequence(a, b[1..])
    ensures IsSubsequence(a, b)
    decreases |a| + |b|
  {
    if a != [] && a[0] == b[0] {
      // matching the head of a against b[0] instead of its match in b[1..]
      SubsequenceDropHead(a, b[1..]);
    }
  }

  lemma {:induction false} SubsequenceDropHead(a: seq<string>, b: seq<string>)
    requires a != [] && IsSubsequence(a, b)
    ensures IsSubsequence(a[1..], b)
    decreases |a| + |b|
  {
    if b != [] && a[0] != b[0] {
      SubsequenceDropHead(a, b[1..]);
      SubsequenceSkip(a[1..], b);
    } else if b != [] {
      if a[1..] != [] {
        SubsequenceSkip(a[1..], b);
      }
    }
  }

  // ---------------------------------------------------------------- chunks

  /** The chunks of a page body: none for an empty body (the early return),
      otherwise the non-blank pieces of the split, untrimmed. */
  function Chunks(body: string): (r: seq<string>)
    ensures body == "" ==> r == []
    ensures forall c :: c in r ==> Trim(c) != "" && !HasSep(c)
  {
    if body == "" then []
    else
      SplitJoin(body);
      KeepNonBlank(Split(body))
  }

  /** A string is a chunk exactly when it is a piece of the split with a
      non-whitespace character, and the chunks keep the pieces' order. For
      the empty body, which returns early, the one piece is empty too. */
  lemma ChunksArePieces(body: string)
    ensures forall c :: c in Chunks(body) <==> c in Split(body) && !Blank(c)
    ensures IsSubsequence(Chunks(body), Split(body))
  {
    if body == "" {
      assert Split(body) == [""];
    } else {
      var pieces := Split(body);
      forall c ensures c in Chunks(body) <==> c in pieces && !Blank(c) {
        assert c in Chunks(body) <==> c in pieces && Trim(c) != "";
      }
      KeepNonBlankInOrder(pieces);
    }
  }

  /** All characters of a string that are not whitespace, in order. */
  function NonWs(s: string): string {
    if s == [] then [] else (if IsWs(s[0]) then [] else [s[0]]) + NonWs(s[1..])
  }

  /** The strings of a list, one after another. */
  function Concat(pieces: seq<string>): string {
    if pieces == [] then [] else pieces[0] + Concat(pieces[1..])
  }

  lemma {:induction false} ConcatSnoc(pieces: seq<string>, x: string)
    ensures Concat(pieces + [x]) == Concat(pieces) + x
    decreases |pieces|
  {
    if pieces == [] {
      assert [] + [x] == [x] && Concat([x]) == x + Concat([]);
    } else {
      assert (pieces + [x])[1..] == pieces[1..] + [x];
      ConcatSnoc(pieces[1..], x);
    }
  }

  lemma {:induction false} NonWsAppend(a: string, b: string)
    ensures NonWs(a + b) == NonWs(a) + NonWs(b)
    decreases |a|
  {
    if a != [] {
      assert (a + b)[1..] == a[1..] + b;
      NonWsAppend(a[1..], b);
    } else {
      assert a + b == b;
    }
  }

  lemma {:induction false} NonWsOfBlank(s: string)
    requires Blank(s)
    ensures NonWs(s) == []
    decreases |s|
  {
    if s != [] {
      NonWsOfBlank(s[1..]);
    }
  }

  lemma {:induction false} KeepNonBlankKeepsContent(pieces: seq<string>)
    ensures NonWs(Concat(KeepNonBlank(pieces))) == NonWs(Concat(pieces))
    decreases |pieces|
  {
    if pieces != [] {
      var rest := KeepNonBlank(pieces[1..]);
      KeepNonBlankKeepsContent(pieces[1..]);
      NonWsAppend(pieces[0], Concat(pieces[1..]));
      if Trim(pieces[0]) != "" {
        assert ([pieces[0]] + rest)[1..] == rest;
        NonWsAppend(pieces[0], Concat(rest));
      } else {
        NonWsOfBlank(pieces[0]);
        assert [] + rest == rest;
      }
    }
  }

  /** Dropping blank pieces loses no visible text: the chunks together hold
      every non-whitespace character of the pieces, in order. */
  lemma ChunksKeepContent(body: string)
    ensures NonWs(Concat(Chunks(body))) == NonWs(Concat(Split(body)))
  {
    if body == "" {
      assert Split(body) == [""] && Concat([""]) == "" + Concat([]);
    } else {
      KeepNonBlankKeepsContent(Split(body));
    }
  }

  /** A piece list with no blank piece passes the filter unchanged. */
  lemma {:induction false} KeepNonBlankAll(pieces: seq<string>)
    requires forall p :: p in pieces ==> !Blank(p)
    ensures KeepNonBlank(pieces) == pieces
    decreases |pieces|
  {
    if pieces != [] {
      var p, rest := pieces[0], pieces[1..];
      assert Trim(p) != "" by {
        assert p in pieces;
      }
      assert KeepNonBlank(rest) == rest by {
        assert forall q :: q in rest ==> q in pieces;
        KeepNonBlankAll(rest);
      }
      assert KeepNonBlank(pieces) == [p] + rest;
      assert [p] + rest == pieces;
    }
  }

  // ---------------------------------------------------------------- parser text

  /** Text as the parser delivers it with its `trim` and `normalize` options:
      no whitespace at either end, and every run of whitespace replaced by
      one space. */
  predicate Normalized(s: string) {
    && (s == [] || (!IsWs(s[0]) && !IsWs(s[|s| - 1])))
    && (forall i :: 0 <= i < |s| && IsWs(s[i]) ==> s[i] == ' ')
    && NoDoubleWs(s)
  }

  /** No two whitespace characters are next to each other. */
  predicate NoDoubleWs(s: string) {
    forall i :: 0 < i < |s| ==> !(IsWs(s[i - 1]) && IsWs(s[i]))
  }

  /** Normalized text stays normalized when joined: neither side has
      whitespace at the seam. */
  lemma NormalizedAppend(a: string, b: string)
    requires Normalized(a) && Normalized(b)
    ensures Normalized(a + b)
  {
    var s := a + b;
    if a != [] && b != [] {
      assert s[0] == a[0] && s[|s| - 1] == b[|b| - 1];
    } else if a == [] {
      assert s == b;
    } else {
      assert s == a;
    }
    forall i | 0 <= i < |s| && IsWs(s[i]) ensures s[i] == ' ' {
      if i < |a| { assert s[i] == a[i]; } else { assert s[i] == b[i - |a|]; }
    }
    forall i | 0 < i < |s| ensures !(IsWs(s[i - 1]) && IsWs(s[i])) {
      if i < |a| {
        assert s[i - 1] == a[i - 1] && s[i] == a[i];
      } else if i == |a| {
        assert s[i - 1] == a[|a| - 1];
      } else {
        assert s[i - 1] == b[i - 1 - |a|] && s[i] == b[i - |a|];
      }
    }
  }

  /** A list of normalized fragments, one after another, is normalized. */
  lemma {:induction false} NormalizedConcat(parts: seq<string>)
    requires forall p :: p in parts ==> Normalized(p)
    ensures Normalized(Concat(parts))
    decreases |parts|
  {
    if parts != [] {
      assert parts[0] in parts;
      assert forall p :: p in parts[1..] ==> p in parts;
      NormalizedConcat(parts[1..]);
      NormalizedAppend(parts[0], Concat(parts[1..]));
    }
  }

  /** Without two whitespace characters in a row, every piece after the
      first starts with a visible character or is empty: the match before it
      consumed the only whitespace there was. */
  lemma {:induction false} LaterPiecesStartVisible(s: string)
    requires NoDoubleWs(s)
    ensures forall i :: 1 <= i < |Split(s)| ==> Split(s)[i] == [] || !IsWs(Split(s)[i][0])
    decreases |s|
  {
    if |s| >= 2 {
      var t := if SepAt(s, 0) then s[2..] else s[1..];
      assert NoDoubleWs(t) by {
        forall i | 0 < i < |t| ensures !(IsWs(t[i - 1]) && IsWs(t[i])) {
          assert t[i - 1] == s[i - 1 + |s| - |t|] && t[i] == s[i + |s| - |t|];
        }
      }
      LaterPiecesStartVisible(t);
      if SepAt(s, 0) {
        var rest := Split(t);
        assert Split(s) == [""] + rest;
        assert rest[0] == [] || rest[0][0] == s[2];
      } else {
        var rest := Split(t);
        assert Split(s) == [Split(s)[0]] + rest[1..];
      }
    }
  }

  /** With the parser's `normalize` option no chunk starts with whitespace,
      although nothing trims the chunks: the match before a chunk consumed
      the single space there. */
  lemma NormalizedChunksStartVisible(body: string)
    requires Normalized(body)
    ensures forall c :: c in Chunks(body) ==> c != [] && !IsWs(c[0])
  {
    if body != "" {
      var pieces := Split(body);
      LaterPiecesStartVisible(body);
      forall c | c in Chunks(body) ensures c != [] && !IsWs(c[0]) {
        assert c in pieces && Trim(c) != "";
        var i :| 0 <= i < |pieces| && pieces[i] == c;
        if i == 0 {
          assert c[0] == body[0];
        }
      }
    }
  }

  /** A body of two sentences as the parser delivers it: the match consumes
      the first dot and the space after it; the final dot stays on the second
      chunk, since only `.` followed by whitespace is a match. */
  lemma TwoSentenceBody()
    ensures Normalized("Para one. Para two.")
    ensures Chunks("Para one. Para two.") == ["Para one", "Para two."]
  {
    var body := "Para one. Para two.";
    TwoSentenceNormalized();
    TwoSentenceSplit();
    TwoSentenceKept();
    assert Chunks(body) == KeepNonBlank(Split(body));
  }

  /** A body of one visible character is its own one chunk. */
  lemma OneWordBody()
    ensures Chunks("x") == ["x"]
  {
    assert Split("x") == ["x"];
    assert !Blank("x") by { assert "x"[0] == 'x' && !IsWs('x'); }
    assert KeepNonBlank(["x"]) == ["x"] + KeepNonBlank([]);
  }

  lemma TwoSentenceKept()
    ensures KeepNonBlank(["Para one", "Para two."]) == ["Para one", "Para two."]
  {
    var a, b := "Para one", "Para two.";
    assert !Blank(a) by { assert a[0] == 'P' && !IsWs('P'); }
    assert !Blank(b) by { assert b[0] == 'P' && !IsWs('P'); }
    KeepNonBlankAll([a, b]);
  }

  lemma TwoSentenceNormalized()
    ensures Normalized("Para one. Para two.")
  {
    var body := "Para one. Para two.";
    forall i | 0 <= i < |body| ensures IsWs(body[i]) ==> body[i] == ' ' {
    }
    forall i | 0 < i < |body| ensures !(IsWs(body[i - 1]) && IsWs(body[i])) {
    }
  }

  lemma TwoSentenceSplit()
    ensures Split("Para one. Para two.") == ["Para one", "Para two."]
  {
    var a, b := "Para one", "Para two.";
    forall i | 0 <= i < |a| ensures !SepAt(a, i) {
      assert a[i] != '.';
    }
    forall i | 0 <= i < |b| ensures !SepAt(b, i) {
      assert i < 8 ==> b[i] != '.';
    }
    assert Join([a, b], [' ']) == a + ['.', ' '] + b;
    assert a + ['.', ' '] + b == "Para one. Para two.";
    SplitUnique([a, b], [' ']);
  }
}
