/**
 Which bodies carry a locator, scripts/migrate-release-assets.py: the string grammar of
 section 7 of RFC 8259, written down apart from the scanner, and the exact shape of a body
 in which `marked_tag` finds a tag.
 */
module MarkerGrammar {
  import opened Options
  import opened DistributionMarker

  // ----- String literals by their grammar

  /** A hexadecimal digit in either case. */
  datatype Nibble = Nibble(value: int, upper: bool)

  /** One character of a string literal: itself, a two-character escape, or a code unit. */
  datatype Piece = Plain(point: CodePoint) | Short(letter: CodePoint) | Unit(a: Nibble, b: Nibble, c: Nibble, d: Nibble)

  const SHORT_ESCAPES: map<CodePoint, CodePoint> :=
    map[34 := 34, 92 := 92, 47 := 47, 98 := 8, 102 := 12, 110 := 10, 114 := 13, 116 := 9]

  predicate ValidNibble(n: Nibble) { 0 <= n.value < 16 }

  predicate ValidPiece(p: Piece) {
    match p
    case Plain(c) => c >= 32 && c != QUOTE && c != BACKSLASH
    case Short(letter) => letter in SHORT_ESCAPES
    case Unit(a, b, c, d) => ValidNibble(a) && ValidNibble(b) && ValidNibble(c) && ValidNibble(d)
  }

  predicate ValidPieces(ps: seq<Piece>) {
    forall i :: 0 <= i < |ps| ==> ValidPiece(ps[i])
  }

  function Digit(n: Nibble): CodePoint
    requires ValidNibble(n)
  {
    if n.value < 10 then 48 + n.value else if n.upper then 55 + n.value else 87 + n.value
  }

  function Written(p: Piece): Text
    requires ValidPiece(p)
  {
    match p
    case Plain(c) => [c]
    case Short(letter) => [BACKSLASH, letter]
    case Unit(a, b, c, d) => [BACKSLASH, LETTER_U, Digit(a), Digit(b), Digit(c), Digit(d)]
  }

  function WrittenAll(ps: seq<Piece>): Text
    requires ValidPieces(ps)
  {
    if ps == [] then [] else Written(ps[0]) + WrittenAll(ps[1..])
  }

  function Meaning(p: Piece): CodePoint
    requires ValidPiece(p)
  {
    match p
    case Plain(c) => c
    case Short(letter) => SHORT_ESCAPES[letter]
    case Unit(a, b, c, d) => ((a.value * 16 + b.value) * 16 + c.value) * 16 + d.value
  }

  /** Two escaped halves of a surrogate pair, next to each other. */
  predicate PairAt(ps: seq<Piece>)
    requires ValidPieces(ps)
  {
    |ps| >= 2 && ps[0].Unit? && ps[1].Unit? && High(Meaning(ps[0])) && Low(Meaning(ps[1]))
  }

  /** The text a literal stands for; escaped surrogate pairs are one character. */
  function Denoted(ps: seq<Piece>): Text
    requires ValidPieces(ps)
  {
    if ps == [] then []
    else if PairAt(ps) then [Paired(Meaning(ps[0]), Meaning(ps[1]))] + Denoted(ps[2..])
    else [Meaning(ps[0])] + Denoted(ps[1..])
  }

  predicate Blank(w: Text) {
    forall i :: 0 <= i < |w| ==> w[i] in {32, 9, 10, 13}
  }

  /** A string literal between blanks that stands for t. */
  ghost predicate Literal(d: Text, t: Text) {
    exists w, ps, w' :: LiteralOf(d, w, ps, w', t)
  }

  predicate LiteralOf(d: Text, w: Text, ps: seq<Piece>, w': Text, t: Text) {
    && Blank(w) && Blank(w') && ValidPieces(ps)
    && d == w + ([QUOTE] + (WrittenAll(ps) + ([QUOTE] + w')))
    && Denoted(ps) == t
  }

  /** `json.dumps` uses the two-character escape wherever there is one, and leaves the slash alone. */
  lemma ShortIsUsed(letter: CodePoint)
    requires letter in SHORT_ESCAPES
    ensures EscapeOne(SHORT_ESCAPES[letter]) == if letter == 47 then [47] else [BACKSLASH, letter]
  {
  }

  // ----- The scanner reads exactly these

  lemma NibbleRead(n: Nibble)
    requires ValidNibble(n)
    ensures HexValue(Digit(n)) == Some(n.value)
  {
  }

  lemma UnitRead(p: Piece, rest: Text)
    requires p.Unit? && ValidPiece(p)
    ensures CodeUnit(Written(p) + rest) == Some(Meaning(p)) && (Written(p) + rest)[6..] == rest
  {
    NibbleRead(p.a);
    NibbleRead(p.b);
    NibbleRead(p.c);
    NibbleRead(p.d);
    var t := Written(p) + rest;
    assert t[0] == BACKSLASH && t[1] == LETTER_U;
    assert t[2] == Digit(p.a) && t[3] == Digit(p.b) && t[4] == Digit(p.c) && t[5] == Digit(p.d);
  }

  lemma NoUnitRead(p: Piece, rest: Text)
    requires !p.Unit? && ValidPiece(p)
    ensures CodeUnit(Written(p) + rest) == None
  {
    var t := Written(p) + rest;
    assert t[0] == Written(p)[0];
    if p.Short? { assert t[1] == p.letter; }
  }

  lemma ShortMeaning(letter: CodePoint)
    ensures Unescape(letter).Some? <==> letter in SHORT_ESCAPES
    ensures letter in SHORT_ESCAPES ==> Unescape(letter) == Some(SHORT_ESCAPES[letter]) && letter != LETTER_U
  {
  }

  lemma WrittenStep(ps: seq<Piece>, end: Text)
    requires ValidPieces(ps) && ps != []
    ensures ValidPieces(ps[1..]) && WrittenAll(ps) + end == Written(ps[0]) + (WrittenAll(ps[1..]) + end)
  {
  }

  /** What follows an unpaired unit does not complete it. */
  lemma NoPartner(ps: seq<Piece>, rest: Text)
    requires ValidPieces(ps) && ps != [] && ps[0].Unit? && High(Meaning(ps[0])) && !PairAt(ps)
    ensures var u := CodeUnit(WrittenAll(ps[1..]) + ([QUOTE] + rest)); u.Some? ==> !Low(u.value)
  {
    var more, end := ps[1..], [QUOTE] + rest;
    if more == [] {
      assert WrittenAll(more) + end == end;
    } else {
      WrittenStep(more, end);
      if more[0].Unit? { UnitRead(more[0], WrittenAll(more[1..]) + end); }
      else { NoUnitRead(more[0], WrittenAll(more[1..]) + end); }
    }
  }

  lemma ScanPiece(p: Piece, more: Text)
    requires ValidPiece(p)
    requires p.Unit? && High(Meaning(p)) ==> var u := CodeUnit(more); u.Some? ==> !Low(u.value)
    ensures Scan(Written(p) + more) == Prepend(Meaning(p), Scan(more))
  {
    var t := Written(p) + more;
    match p
    case Plain(c) => assert t[0] == c && t[1..] == more;
    case Short(letter) =>
      ShortMeaning(letter);
      assert t[0] == BACKSLASH && t[1] == letter && t[2..] == more;
    case Unit(_, _, _, _) =>
      UnitRead(p, more);
      assert t[0] == BACKSLASH && t[1] == LETTER_U;
  }

  lemma ScanPairOf(p: Piece, q: Piece, more: Text)
    requires ValidPiece(p) && ValidPiece(q) && p.Unit? && q.Unit? && High(Meaning(p)) && Low(Meaning(q))
    ensures Scan(Written(p) + (Written(q) + more)) == Prepend(Paired(Meaning(p), Meaning(q)), Scan(more))
  {
    var t := Written(p) + (Written(q) + more);
    UnitRead(p, Written(q) + more);
    UnitRead(q, more);
    assert t[0] == BACKSLASH && t[1] == LETTER_U;
    assert t[12..] == t[6..][6..];
  }

  /** Every literal is read as the text it stands for. */
  lemma {:induction false} LiteralIsScanned(ps: seq<Piece>, rest: Text)
    requires ValidPieces(ps)
    ensures Scan(WrittenAll(ps) + ([QUOTE] + rest)) == Good(Denoted(ps), rest)
    decreases |ps|
  {
    var end := [QUOTE] + rest;
    if ps == [] {
      assert WrittenAll(ps) + end == end;
      assert end[0] == QUOTE && end[1..] == rest;
    } else if PairAt(ps) {
      var more := WrittenAll(ps[2..]) + end;
      LiteralIsScanned(ps[2..], rest);
      WrittenStep(ps, end);
      WrittenStep(ps[1..], end);
      assert ps[1..][1..] == ps[2..];
      ScanPairOf(ps[0], ps[1], more);
    } else {
      LiteralIsScanned(ps[1..], rest);
      WrittenStep(ps, end);
      if ps[0].Unit? && High(Meaning(ps[0])) { NoPartner(ps, rest); }
      ScanPiece(ps[0], WrittenAll(ps[1..]) + end);
    }
  }

  lemma NibbleOf(c: CodePoint) returns (n: Nibble)
    requires HexValue(c).Some?
    ensures ValidNibble(n) && Digit(n) == c && n.value == HexValue(c).value
  {
    n := Nibble(HexValue(c).value, c <= 70);
  }

  lemma UnitOf(t: Text) returns (p: Piece)
    requires CodeUnit(t).Some?
    ensures p.Unit? && ValidPiece(p) && |t| >= 6 && t == Written(p) + t[6..] && Meaning(p) == CodeUnit(t).value
  {
    var a := NibbleOf(t[2]);
    var b := NibbleOf(t[3]);
    var c := NibbleOf(t[4]);
    var d := NibbleOf(t[5]);
    p := Unit(a, b, c, d);
    assert t == t[..6] + t[6..];
    assert t[..6] == Written(p);
  }

  /** The first piece of a text that is scanned without pairing. */
  lemma PieceOf(t: Text) returns (p: Piece, more: Text)
    requires Scan(t).Good? && t != [] && t[0] != QUOTE
    requires var u := CodeUnit(t); u.Some? && High(u.value) ==>
      var v := CodeUnit(t[6..]); v.Some? ==> !Low(v.value)
    ensures ValidPiece(p) && t == Written(p) + more && |more| < |t| && Scan(t) == Prepend(Meaning(p), Scan(more))
    ensures p.Unit? ==> CodeUnit(t) == Some(Meaning(p)) && |t| >= 6 && more == t[6..]
  {
    if t[0] != BACKSLASH {
      p, more := Plain(t[0]), t[1..];
      assert t == [t[0]] + more;
    } else if t[1] == LETTER_U {
      p := UnitOf(t);
      more := t[6..];
    } else {
      ShortMeaning(t[1]);
      p, more := Short(t[1]), t[2..];
      assert t == [t[0], t[1]] + more;
    }
  }

  lemma ConsWritten(p: Piece, ps: seq<Piece>, end: Text)
    requires ValidPiece(p) && ValidPieces(ps)
    ensures ValidPieces([p] + ps) && WrittenAll([p] + ps) + end == Written(p) + (WrittenAll(ps) + end)
  {
    assert ([p] + ps)[1..] == ps;
  }

  /** Whatever is read was a literal. */
  lemma {:induction false} ScannedIsLiteral(t: Text) returns (ps: seq<Piece>)
    requires Scan(t).Good?
    ensures ValidPieces(ps) && t == WrittenAll(ps) + ([QUOTE] + Scan(t).rest) && Denoted(ps) == Scan(t).value
    decreases |t|
  {
    if t[0] == QUOTE {
      ps := [];
      assert t == [QUOTE] + t[1..];
      assert WrittenAll(ps) + ([QUOTE] + t[1..]) == [QUOTE] + t[1..];
      return;
    }
    var u := CodeUnit(t);
    if u.Some? && High(u.value) && CodeUnit(t[6..]).Some? && Low(CodeUnit(t[6..]).value) {
      ps := PairIsLiteral(t);
    } else {
      ps := OneIsLiteral(t);
    }
  }

  lemma {:induction false} OneIsLiteral(t: Text) returns (ps: seq<Piece>)
    requires Scan(t).Good? && t != [] && t[0] != QUOTE
    requires var u := CodeUnit(t); u.Some? && High(u.value) ==> var v := CodeUnit(t[6..]); v.Some? ==> !Low(v.value)
    ensures ValidPieces(ps) && t == WrittenAll(ps) + ([QUOTE] + Scan(t).rest) && Denoted(ps) == Scan(t).value
    decreases |t|, 0
  {
    var p, more := PieceOf(t);
    hide Scan;
    var rest := ScannedIsLiteral(more);
    var end := [QUOTE] + Scan(more).rest;
    ConsWritten(p, rest, end);
    UnpairedFirst(t, p, rest, end);
    ps := [p] + rest;
    assert ps[1..] == rest;
  }

  lemma {:induction false} UnpairedFirst(t: Text, p: Piece, rest: seq<Piece>, end: Text)
    requires ValidPiece(p) && ValidPieces(rest)
    requires t == Written(p) + (WrittenAll(rest) + end)
    requires var u := CodeUnit(t); u.Some? && High(u.value) ==> var v := CodeUnit(t[6..]); v.Some? ==> !Low(v.value)
    ensures ValidPieces([p] + rest) && !PairAt([p] + rest)
  {
    assert ([p] + rest)[1..] == rest;
    if p.Unit? && rest != [] && rest[0].Unit? {
      UnitRead(p, WrittenAll(rest) + end);
      WrittenStep(rest, end);
      UnitRead(rest[0], WrittenAll(rest[1..]) + end);
    }
  }

  lemma {:induction false} PairIsLiteral(t: Text) returns (ps: seq<Piece>)
    requires Scan(t).Good? && t != [] && t[0] != QUOTE
    requires CodeUnit(t).Some? && High(CodeUnit(t).value)
    requires CodeUnit(t[6..]).Some? && Low(CodeUnit(t[6..]).value)
    ensures ValidPieces(ps) && t == WrittenAll(ps) + ([QUOTE] + Scan(t).rest) && Denoted(ps) == Scan(t).value
    decreases |t|, 0
  {
    var p := UnitOf(t);
    var q := UnitOf(t[6..]);
    var more := t[6..][6..];
    assert more == t[12..];
    var rest := ScannedIsLiteral(more);
    var end := [QUOTE] + Scan(more).rest;
    ConsWritten(q, rest, end);
    ConsWritten(p, [q] + rest, end);
    ps := [p] + ([q] + rest);
    assert ps[0] == p && ps[1] == q && ps[2..] == rest;
  }

  lemma {:induction false} SkipBlank(w: Text, s: Text)
    requires Blank(w) && (s == [] || s[0] !in {32, 9, 10, 13})
    ensures SkipSpace(w + s) == s
  {
    if w == [] {
      assert w + s == s;
    } else {
      assert (w + s)[0] == w[0] && (w + s)[1..] == w[1..] + s;
      SkipBlank(w[1..], s);
    }
  }

  /** Skipping takes blanks away and stops in front of something else. */
  lemma {:induction false} Skipped(t: Text) returns (w: Text)
    ensures Blank(w) && t == w + SkipSpace(t)
  {
    if t != [] && t[0] in {32, 9, 10, 13} {
      var rest := Skipped(t[1..]);
      w := [t[0]] + rest;
      assert t == [t[0]] + t[1..];
    } else {
      w := [];
    }
  }

  /** `json.loads` returns a string exactly for the literals of that string between blanks. */
  lemma LoadsIff(d: Text, t: Text)
    ensures Loads(d) == Some(t) <==> Literal(d, t)
  {
    if Loads(d) == Some(t) {
      var w, ps, w' := LoadedIsLiteral(d, t);
    }
    if Literal(d, t) {
      var w, ps, w' :| LiteralOf(d, w, ps, w', t);
      var s := [QUOTE] + (WrittenAll(ps) + ([QUOTE] + w'));
      SkipBlank(w, s);
      assert s[1..] == WrittenAll(ps) + ([QUOTE] + w');
      LiteralIsScanned(ps, w');
      SkipBlank(w', []);
      assert w' + [] == w';
    }
  }

  lemma LoadedIsLiteral(d: Text, t: Text) returns (w: Text, ps: seq<Piece>, w': Text)
    requires Loads(d) == Some(t)
    ensures LiteralOf(d, w, ps, w', t)
  {
    hide Scan;
    w := Skipped(d);
    var s := SkipSpace(d);
    ps := ScannedIsLiteral(s[1..]);
    w' := Skipped(Scan(s[1..]).rest);
    assert s == [QUOTE] + s[1..];
    assert w' == Scan(s[1..]).rest;
  }

  // ----- Bodies with a locator

  predicate EndsWith(text: Text, p: Text) {
    |p| <= |text| && text[|text| - |p|..] == p
  }

  ghost predicate Free(text: Text, p: Text) {
    forall i: nat :: !OccursAt(text, p, i)
  }

  /** Behind the last prefix, or in the whole body if there is none, stands a literal of the tag and the suffix. */
  ghost predicate Locates(body: Text, front: Text, d: Text, tag: Text) {
    && (front == [] || EndsWith(front, Prefix()))
    && body == front + (d + Suffix())
    && Free(d + Suffix(), Prefix())
    && Literal(d, tag)
  }

  lemma PrefixShape()
    ensures |Prefix()| > 0 && Prefix()[0] == 10 && forall i :: 0 < i < |Prefix()| ==> Prefix()[i] != 10
  {
    assert forall i :: 0 < i < |Prefix()| ==> Prefix()[i] == Ascii("<!-- openagent-distribution-tag: ")[i - 1];
  }

  lemma {:induction false} LastIndexFound(text: Text, p: Text, k: int)
    requires k < 0 || k <= |text|
    ensures var i := LastIndex(text, p, k);
            && -1 <= i <= (if k < 0 then -1 else k)
            && (i >= 0 ==> OccursAt(text, p, i))
            && forall j: nat :: i < j <= k ==> !OccursAt(text, p, j)
  {
    if k >= 0 && !OccursAt(text, p, k) { LastIndexFound(text, p, k - 1); }
  }

  /** The text behind the last prefix, and what stands before it. */
  lemma TailSplit(body: Text, p: Text) returns (front: Text, tail: Text)
    requires p != []
    ensures var at := LastIndex(body, p, |body|);
            tail == if 0 <= at && at + |p| <= |body| then body[at + |p|..] else body
    ensures body == front + tail && (front == [] || EndsWith(front, p)) && Free(tail, p)
  {
    var at := LastIndex(body, p, |body|);
    LastIndexFound(body, p, |body|);
    if at < 0 {
      front, tail := [], body;
      assert body == front + tail;
      forall i: nat ensures !OccursAt(tail, p, i) {
        if i > |body| { }
      }
    } else {
      front, tail := body[..at + |p|], body[at + |p|..];
      assert body == front + tail;
      assert front[|front| - |p|..] == body[at..at + |p|];
      forall i: nat ensures !OccursAt(tail, p, i) {
        if i + |p| <= |tail| {
          var j := at + |p| + i;
          assert body[j..j + |p|] == tail[i..i + |p|];
          assert !OccursAt(body, p, j);
        }
      }
    }
  }

  /** A prefix that starts with a newline and has no other is last where nothing behind it holds it. */
  lemma LastAt(front: Text, tail: Text, p: Text)
    requires p != [] && p[0] == 10 && forall i :: 0 < i < |p| ==> p[i] != 10
    requires front == [] || EndsWith(front, p)
    requires Free(tail, p)
    ensures LastIndex(front + tail, p, |front + tail|) == if front == [] then -1 else |front| - |p|
  {
    var body, at := front + tail, if front == [] then -1 else |front| - |p|;
    LastIndexFound(body, p, |body|);
    if front != [] {
      assert body[at..at + |p|] == front[at..];
      assert OccursAt(body, p, at);
    }
    forall j: nat | at < j <= |body| ensures !OccursAt(body, p, j) {
      if j + |p| <= |body| {
        NotInside(front, tail, p, at, j);
      }
    }
  }

  lemma NotInside(front: Text, tail: Text, p: Text, at: int, j: nat)
    requires p != [] && p[0] == 10 && forall i :: 0 < i < |p| ==> p[i] != 10
    requires at == if front == [] then -1 else |front| - |p|
    requires front == [] || EndsWith(front, p)
    requires Free(tail, p) && at < j && j + |p| <= |front + tail|
    ensures !OccursAt(front + tail, p, j)
  {
    var body := front + tail;
    if j >= |front| {
      var i: nat := j - |front|;
      assert body[j..j + |p|] == tail[i..i + |p|];
      assert !OccursAt(tail, p, i);
    } else {
      assert body[j] == front[j] == front[at..][j - at] == p[j - at];
      assert body[j..j + |p|][0] == body[j];
    }
  }

  lemma LocatedIsMarked(body: Text, front: Text, d: Text, tag: Text)
    requires tag != [] && Locates(body, front, d, tag)
    ensures MarkedTag(body) == Some(tag)
  {
    hide Prefix, Suffix, Loads, Literal;
    PrefixShape();
    var tail, e := d + Suffix(), Suffix();
    LastAt(front, tail, Prefix());
    assert front != [] ==> body[|front|..] == tail;
    assert front == [] ==> body == tail;
    assert tail[..|tail| - |e|] == d && tail[|tail| - |e|..] == e;
    LoadsIff(d, tag);
  }

  /**
   A locator is found in exactly the bodies that end with a literal of a non-empty tag and
   the suffix, directly behind the last prefix or making up the whole body.
   */
  lemma MarkedTagIff(body: Text, tag: Text)
    ensures MarkedTag(body) == Some(tag) <==> tag != [] && exists front, d :: Locates(body, front, d, tag)
  {
    if MarkedTag(body) == Some(tag) {
      PrefixShape();
      hide Prefix, Suffix, Loads, Literal;
      var front, tail := TailSplit(body, Prefix());
      var e := Suffix();
      var d := tail[..|tail| - |e|];
      assert tail == d + e;
      LoadsIff(d, tag);
      assert Locates(body, front, d, tag);
    }
    if front, d :| tag != [] && Locates(body, front, d, tag) {
      LocatedIsMarked(body, front, d, tag);
    }
  }

  /** In particular a body that does not end with the suffix has no locator, and no locator is empty. */
  lemma LocatorNeedsSuffix(body: Text)
    ensures MarkedTag(body).Some? ==> EndsWith(body, Suffix()) && MarkedTag(body).value != []
  {
    hide Prefix, Suffix, Loads, Literal;
    if MarkedTag(body).Some? {
      var tag := MarkedTag(body).value;
      MarkedTagIff(body, tag);
      var front, d :| Locates(body, front, d, tag);
      hide MarkedTag;
      assert body == front + d + Suffix();
    }
  }
}
