/**
 The locator that scripts/migrate-release-assets.py hides at the end of a release body:
 `distribution_marker` prints it, `marked_tag` finds and parses it.
 Python strings are sequences of code points, lone surrogates included.
 */
module DistributionMarker {
  import opened Options

  type CodePoint = c: int | 0 <= c < 0x110000

  type Text = seq<CodePoint>

  function Ascii(s: string): (t: Text)
    ensures |t| == |s|
    ensures forall i :: 0 <= i < |s| && s[i] < 128 as char ==> t[i] == s[i] as int
  {
    seq(|s|, i requires 0 <= i < |s| => if s[i] < 128 as char then s[i] as int else 0)
  }

  const QUOTE: CodePoint := 34
  const BACKSLASH: CodePoint := 92
  const LETTER_U: CodePoint := 117

  // ----- json.dumps of a string

  function HexDigit(n: int): CodePoint
    requires 0 <= n < 16
  {
    if n < 10 then 48 + n else 87 + n
  }

  /** The six characters of a \u escape. */
  function UnicodeEscape(u: int): Text
    requires 0 <= u < 0x10000
  {
    [BACKSLASH, LETTER_U, HexDigit(u / 4096), HexDigit(u / 256 % 16), HexDigit(u / 16 % 16), HexDigit(u % 16)]
  }

  function HighHalf(c: CodePoint): int
    requires c >= 0x10000
  {
    0xD800 + (c - 0x10000) / 0x400
  }

  function LowHalf(c: CodePoint): int
    requires c >= 0x10000
  {
    0xDC00 + (c - 0x10000) % 0x400
  }

  /** Two-character escapes, as (character, letter after the backslash). */
  function ShortEscape(c: CodePoint): Option<CodePoint> {
    if c == 34 then Some(34)
    else if c == 92 then Some(92)
    else if c == 10 then Some(110)
    else if c == 13 then Some(114)
    else if c == 9 then Some(116)
    else if c == 12 then Some(102)
    else if c == 8 then Some(98)
    else None
  }

  function EscapeOne(c: CodePoint): Text {
    if ShortEscape(c).Some? then [BACKSLASH, ShortEscape(c).value]
    else if 32 <= c <= 126 then [c]
    else if c < 0x10000 then UnicodeEscape(c)
    else UnicodeEscape(HighHalf(c)) + UnicodeEscape(LowHalf(c))
  }

  function Escape(t: Text): Text {
    if t == [] then [] else EscapeOne(t[0]) + Escape(t[1..])
  }

  function Dumps(t: Text): Text {
    [QUOTE] + Escape(t) + [QUOTE]
  }

  // ----- json.loads, as far as it yields a string

  function HexValue(c: CodePoint): (v: Option<int>)
    ensures v.Some? ==> 0 <= v.value < 16
  {
    if 48 <= c <= 57 then Some(c - 48)
    else if 97 <= c <= 102 then Some(c - 87)
    else if 65 <= c <= 70 then Some(c - 55)
    else None
  }

  function Hex4(a: int, b: int, c: int, d: int): (u: int)
    requires 0 <= a < 16 && 0 <= b < 16 && 0 <= c < 16 && 0 <= d < 16
    ensures 0 <= u < 0x10000
  {
    a * 4096 + b * 256 + c * 16 + d
  }

  /** The code unit of a \u escape at the start of the text. */
  function CodeUnit(t: Text): (u: Option<int>)
    ensures u.Some? ==> 0 <= u.value < 0x10000
  {
    if |t| >= 6 && t[0] == BACKSLASH && t[1] == LETTER_U
       && HexValue(t[2]).Some? && HexValue(t[3]).Some? && HexValue(t[4]).Some? && HexValue(t[5]).Some?
    then Some(Hex4(HexValue(t[2]).value, HexValue(t[3]).value, HexValue(t[4]).value, HexValue(t[5]).value))
    else None
  }

  predicate High(u: int) { 0xD800 <= u <= 0xDBFF }

  predicate Low(u: int) { 0xDC00 <= u <= 0xDFFF }

  function Paired(high: int, low: int): CodePoint
    requires High(high) && Low(low)
  {
    0x10000 + (high - 0xD800) * 0x400 + (low - 0xDC00)
  }

  function Unescape(letter: CodePoint): Option<CodePoint> {
    if letter == 34 then Some(34)
    else if letter == 92 then Some(92)
    else if letter == 47 then Some(47)
    else if letter == 98 then Some(8)
    else if letter == 102 then Some(12)
    else if letter == 110 then Some(10)
    else if letter == 114 then Some(13)
    else if letter == 116 then Some(9)
    else None
  }

  datatype Scanned = Bad | Good(value: Text, rest: Text)

  function Prepend(c: CodePoint, s: Scanned): Scanned {
    if s.Bad? then Bad else Good([c] + s.value, s.rest)
  }

  /** Reads a string literal whose opening quote has been consumed. */
  function Scan(t: Text): Scanned
    decreases |t|
  {
    if t == [] then Bad
    else if t[0] == QUOTE then Good([], t[1..])
    else if t[0] == BACKSLASH then
      if |t| < 2 then Bad
      else if t[1] == LETTER_U then
        var u := CodeUnit(t);
        if u.None? then Bad
        else
          var v := CodeUnit(t[6..]);
          if High(u.value) && v.Some? && Low(v.value) then Prepend(Paired(u.value, v.value), Scan(t[12..]))
          else Prepend(u.value, Scan(t[6..]))
      else if Unescape(t[1]).None? then Bad
      else Prepend(Unescape(t[1]).value, Scan(t[2..]))
    else if t[0] < 32 then Bad
    else Prepend(t[0], Scan(t[1..]))
  }

  function SkipSpace(t: Text): Text {
    if t != [] && t[0] in {32, 9, 10, 13} then SkipSpace(t[1..]) else t
  }

  /** The string `json.loads` returns; `None` when it fails or returns something else. */
  function Loads(t: Text): Option<Text> {
    var s := SkipSpace(t);
    if s == [] || s[0] != QUOTE then None
    else
      var r := Scan(s[1..]);
      if r.Good? && SkipSpace(r.rest) == [] then Some(r.value) else None
  }

  // ----- The marker

  function Prefix(): Text {
    [10] + Ascii("<!-- openagent-distribution-tag: ")
  }

  function Suffix(): Text {
    Ascii(" -->")
  }

  function Marker(tag: Text): Text {
    Prefix() + Dumps(tag) + Suffix()
  }

  predicate OccursAt(text: Text, p: Text, i: nat) {
    i + |p| <= |text| && text[i..i + |p|] == p
  }

  /** The last occurrence at or before i, or -1. */
  function LastIndex(text: Text, p: Text, i: int): int
    requires i < 0 || i <= |text|
    decreases i
  {
    if i < 0 then -1 else if OccursAt(text, p, i) then i else LastIndex(text, p, i - 1)
  }

  function MarkedTag(body: Text): Option<Text> {
    var at := LastIndex(body, Prefix(), |body|);
    var tail := if 0 <= at && at + |Prefix()| <= |body| then body[at + |Prefix()|..] else body;
    if |tail| >= |Suffix()| && tail[|tail| - |Suffix()|..] == Suffix() then
      match Loads(tail[..|tail| - |Suffix()|])
      case Some(value) => if value != [] then Some(value) else None
      case None => None
    else None
  }

  // ----- Round trip

  /** Adjacent surrogate halves fused, as decoding fuses them. */
  function Fuse(t: Text): Text {
    if |t| >= 2 && High(t[0]) && Low(t[1]) then [Paired(t[0], t[1])] + Fuse(t[2..])
    else if t == [] then []
    else [t[0]] + Fuse(t[1..])
  }

  predicate HasSurrogatePair(t: Text) {
    exists i :: 0 <= i < |t| - 1 && High(t[i]) && Low(t[i + 1])
  }

  /**
   For every body, older markers in it notwithstanding, the tag comes back with its
   surrogate halves fused; the empty tag is not found.
   */
  lemma MarkerDecodes(body: Text, tag: Text)
    ensures MarkedTag(body + Marker(tag)) == if tag == [] then None else Some(Fuse(tag))
  {
    var text, p, d, e := body + Marker(tag), Prefix(), Dumps(tag), Suffix();
    LastMarker(body, tag);
    var tail := text[|body| + |p|..];
    assert tail == d + e;
    assert tail[..|tail| - |e|] == d && tail[|tail| - |e|..] == e;
    LoadsDumps(tag);
    FuseEmpty(tag);
  }

  /** The appended marker is the last one in the text. */
  lemma LastMarker(body: Text, tag: Text)
    ensures LastIndex(body + Marker(tag), Prefix(), |body + Marker(tag)|) == |body|
  {
    var text, p, marker := body + Marker(tag), Prefix(), Marker(tag);
    assert marker == p + (Dumps(tag) + Suffix());
    assert text[|body|..|body| + |p|] == p;
    forall j | |body| < j <= |text| ensures !OccursAt(text, p, j) {
      if j < |text| {
        MarkerHasNoNewline(tag, j - |body|);
        OccurrenceStart(text, p, j);
      }
    }
    LastIndexIs(text, p, |body|, |text|);
  }

  lemma OccurrenceStart(text: Text, p: Text, j: nat)
    requires j < |text| && p != []
    ensures OccursAt(text, p, j) ==> text[j] == p[0]
  {
    if OccursAt(text, p, j) { assert text[j..j + |p|][0] == text[j]; }
  }

  /** The tag itself comes back exactly when it is non-empty and free of surrogate pairs. */
  lemma MarkerRoundTripIff(body: Text, tag: Text)
    ensures MarkedTag(body + Marker(tag)) == Some(tag) <==> tag != [] && !HasSurrogatePair(tag)
  {
    MarkerDecodes(body, tag);
    FuseIdentityIff(tag);
  }

  /** A tag written as two surrogate halves is read back as one astral character. */
  lemma SurrogatePairIsFused(body: Text)
    ensures MarkedTag(body + Marker([0xD83D, 0xDE00])) == Some([0x1F600])
  {
    var tag: Text := [0xD83D, 0xDE00];
    MarkerDecodes(body, tag);
    assert tag[2..] == [];
    var none: Text := [];
    assert Fuse(none) == none;
    assert Fuse(tag) == [0x1F600];
  }

  lemma FuseEmpty(t: Text)
    ensures Fuse(t) == [] <==> t == []
  {
    if |t| >= 2 && High(t[0]) && Low(t[1]) { assert |Fuse(t)| > 0; }
    else if t != [] { assert |Fuse(t)| > 0; }
  }

  lemma {:induction false} FuseIdentityIff(t: Text)
    ensures |Fuse(t)| <= |t|
    ensures HasSurrogatePair(t) ==> |Fuse(t)| < |t|
    ensures !HasSurrogatePair(t) ==> Fuse(t) == t
  {
    if |t| >= 2 && High(t[0]) && Low(t[1]) {
      FuseIdentityIff(t[2..]);
      assert HasSurrogatePair(t);
    } else if t != [] {
      var rest := t[1..];
      FuseIdentityIff(rest);
      if HasSurrogatePair(t) {
        var i :| 0 <= i < |t| - 1 && High(t[i]) && Low(t[i + 1]);
        assert High(rest[i - 1]) && Low(rest[i]);
      } else {
        forall i | 0 <= i < |rest| - 1 ensures !(High(rest[i]) && Low(rest[i + 1])) {
          assert rest[i] == t[i + 1] && rest[i + 1] == t[i + 1 + 1];
        }
      }
    }
  }

  lemma {:induction false} LastIndexIs(text: Text, p: Text, i: nat, k: nat)
    requires i <= k <= |text| && OccursAt(text, p, i)
    requires forall j :: i < j <= k ==> !OccursAt(text, p, j)
    ensures LastIndex(text, p, k) == i
  {
    if i < k { LastIndexIs(text, p, i, k - 1); }
  }

  /** JSON text never holds a newline, so it cannot hold the marker's prefix. */
  lemma MarkerHasNoNewline(tag: Text, k: nat)
    requires 0 < k < |Marker(tag)|
    ensures Marker(tag)[k] != 10
  {
    EscapeClean(tag);
    var p, d, e := Prefix(), Dumps(tag), Suffix();
    if k < |p| {
      assert Marker(tag)[k] == p[k];
      assert p[k] == Ascii("<!-- openagent-distribution-tag: ")[k - 1];
    } else if k < |p| + |d| {
      assert Marker(tag)[k] == d[k - |p|];
    } else {
      assert Marker(tag)[k] == e[k - |p| - |d|];
    }
  }

  lemma {:induction false} EscapeClean(t: Text)
    ensures forall i :: 0 <= i < |Escape(t)| ==> 32 <= Escape(t)[i] <= 126
  {
    if t != [] {
      EscapeClean(t[1..]);
      assert forall i :: 0 <= i < |EscapeOne(t[0])| ==> 32 <= EscapeOne(t[0])[i] <= 126;
    }
  }

  lemma LoadsDumps(t: Text)
    ensures Loads(Dumps(t)) == Some(Fuse(t))
  {
    var d := Dumps(t);
    assert SkipSpace(d) == d;
    assert d[1..] == Escape(t) + [QUOTE];
    assert Escape(t) + [QUOTE] == Escape(t) + ([QUOTE] + []);
    ScanEscaped(t, []);
  }

  lemma EscapeHead(t: Text, end: Text)
    requires t != []
    ensures Escape(t) + end == EscapeOne(t[0]) + (Escape(t[1..]) + end)
  {
  }

  /** Scanning an escaped text stops at the closing quote with the fused original. */
  lemma {:induction false} ScanEscaped(t: Text, rest: Text)
    ensures Scan(Escape(t) + ([QUOTE] + rest)) == Good(Fuse(t), rest)
    decreases |t|
  {
    var end := [QUOTE] + rest;
    if t == [] {
      assert Escape(t) + end == end;
    } else if |t| >= 2 && High(t[0]) && Low(t[1]) {
      ScanEscaped(t[2..], rest);
      ScanFused(t, end);
    } else {
      ScanEscaped(t[1..], rest);
      EscapeHead(t, end);
      if High(t[0]) { FollowsLow(t[1..], rest); }
      ScanOne(t[0], Escape(t[1..]) + end);
    }
  }

  lemma ScanFused(t: Text, end: Text)
    requires |t| >= 2 && High(t[0]) && Low(t[1])
    ensures Scan(Escape(t) + end) == Prepend(Paired(t[0], t[1]), Scan(Escape(t[2..]) + end))
  {
    var more := Escape(t[2..]) + end;
    calc {
      Escape(t) + end;
      { EscapeHead(t, end); EscapeUnit(t[0]); }
      UnicodeEscape(t[0]) + (Escape(t[1..]) + end);
      { EscapeHead(t[1..], end); EscapeUnit(t[1]); assert t[1..][1..] == t[2..]; }
      UnicodeEscape(t[0]) + (UnicodeEscape(t[1]) + more);
    }
    ScanPair(t[0], t[1], more);
  }

  lemma EscapeUnit(c: CodePoint)
    requires High(c) || Low(c)
    ensures EscapeOne(c) == UnicodeEscape(c)
  {
  }

  /** Only a low surrogate is escaped to a low code unit. */
  lemma FollowsLow(t: Text, rest: Text)
    requires t == [] || !Low(t[0])
    ensures var u := CodeUnit(Escape(t) + ([QUOTE] + rest)); u.Some? ==> !Low(u.value)
  {
    var end := [QUOTE] + rest;
    if t == [] {
      assert Escape(t) + end == end;
    } else {
      EscapeHead(t, end);
      UnitOfOne(t[0], Escape(t[1..]) + end);
    }
  }

  lemma UnitOfOne(c: CodePoint, more: Text)
    requires !Low(c)
    ensures var u := CodeUnit(EscapeOne(c) + more); u.Some? ==> !Low(u.value)
  {
    if ShortEscape(c).Some? {
      assert (EscapeOne(c) + more)[1] == ShortEscape(c).value != LETTER_U;
    } else if 32 <= c <= 126 {
      assert (EscapeOne(c) + more)[0] == c != BACKSLASH;
    } else if c < 0x10000 {
      UnitOfEscape(c, more);
    } else {
      EscapeAstral(c, more);
      UnitOfEscape(HighHalf(c), UnicodeEscape(LowHalf(c)) + more);
    }
  }

  lemma EscapeAstral(c: CodePoint, more: Text)
    requires c >= 0x10000
    ensures High(HighHalf(c)) && Low(LowHalf(c)) && Paired(HighHalf(c), LowHalf(c)) == c
    ensures EscapeOne(c) + more == UnicodeEscape(HighHalf(c)) + (UnicodeEscape(LowHalf(c)) + more)
  {
  }

  lemma UnitOfEscape(u: int, more: Text)
    requires 0 <= u < 0x10000
    ensures CodeUnit(UnicodeEscape(u) + more) == Some(u)
    ensures (UnicodeEscape(u) + more)[6..] == more
  {
    var t := UnicodeEscape(u) + more;
    assert t[0] == BACKSLASH && t[1] == LETTER_U;
    assert HexValue(t[2]) == Some(u / 4096);
    assert HexValue(t[3]) == Some(u / 256 % 16);
    assert HexValue(t[4]) == Some(u / 16 % 16);
    assert HexValue(t[5]) == Some(u % 16);
    Digits(u);
  }

  lemma Digits(u: int)
    requires 0 <= u < 0x10000
    ensures Hex4(u / 4096, u / 256 % 16, u / 16 % 16, u % 16) == u
  {
    assert u / 16 / 16 == u / 256 && u / 256 / 16 == u / 4096;
  }

  lemma ScanPair(high: int, low: int, more: Text)
    requires High(high) && Low(low)
    ensures Scan(UnicodeEscape(high) + (UnicodeEscape(low) + more)) == Prepend(Paired(high, low), Scan(more))
  {
    var t := UnicodeEscape(high) + (UnicodeEscape(low) + more);
    UnitOfEscape(high, UnicodeEscape(low) + more);
    UnitOfEscape(low, more);
    assert t[0] == BACKSLASH && t[1] == LETTER_U;
    assert t[12..] == t[6..][6..];
  }

  lemma ScanOne(c: CodePoint, more: Text)
    requires High(c) ==> var u := CodeUnit(more); u.Some? ==> !Low(u.value)
    ensures Scan(EscapeOne(c) + more) == Prepend(c, Scan(more))
  {
    var t := EscapeOne(c) + more;
    if ShortEscape(c).Some? {
      assert t[0] == BACKSLASH && t[1] == ShortEscape(c).value && t[2..] == more;
      assert Unescape(t[1]) == Some(c);
    } else if 32 <= c <= 126 {
      assert t[0] == c && t[1..] == more;
    } else if c < 0x10000 {
      UnitOfEscape(c, more);
      assert t[0] == BACKSLASH && t[1] == LETTER_U;
    } else {
      EscapeAstral(c, more);
      ScanPair(HighHalf(c), LowHalf(c), more);
    }
  }
}
