/**
 The `stable` text of apps/app/desktop/scripts/merge-update-metadata.js, by which metadata
 entries are compared. A parsed YAML document is a `Value`; its objects are maps, so equal
 values are values that are equal up to the order of their keys.
 */
module StableText {
  import Strings

  datatype Value =
    | Null
    | Bool(flag: bool)
    | Num(number: int)
    | Str(text: string)
    | Arr(items: seq<Value>)
    | Obj(fields: map<string, Value>)

  type Fields = map<string, Value>

  // ----- Strings in code unit order, as `sort` without a comparator orders them

  predicate Less(a: string, b: string) {
    if b == "" then false
    else if a == "" then true
    else if a[0] != b[0] then a[0] < b[0]
    else Less(a[1..], b[1..])
  }

  lemma {:induction false} LessTotal(a: string, b: string)
    ensures a == b || Less(a, b) || Less(b, a)
    ensures !(Less(a, b) && Less(b, a)) && !Less(a, a)
  {
    if a != "" && b != "" && a[0] == b[0] {
      LessTotal(a[1..], b[1..]);
      assert a == [a[0]] + a[1..] && b == [b[0]] + b[1..];
    }
    if a != "" { LessTotal(a[1..], a[1..]); }
  }

  /** A proper prefix comes first; otherwise the first difference decides. */
  ghost predicate Precedes(a: string, b: string, n: nat) {
    && n <= |a| && n <= |b| && a[..n] == b[..n]
    && (n == |a| < |b| || (n < |a| && n < |b| && a[n] < b[n]))
  }

  lemma PrecedesLater(a: string, b: string, n: nat)
    requires a != "" && b != "" && a[0] == b[0]
    ensures Precedes(a, b, n + 1) <==> Precedes(a[1..], b[1..], n)
  {
    if n < |a| && n < |b| {
      assert a[..n + 1] == [a[0]] + a[1..][..n] && b[..n + 1] == [b[0]] + b[1..][..n];
      assert a[1..][..n] == a[..n + 1][1..] && b[1..][..n] == b[..n + 1][1..];
    }
  }

  lemma DiffersAtOnce(a: string, b: string, n: nat)
    requires a != "" && b != "" && a[0] != b[0] && n > 0
    ensures !Precedes(a, b, n)
  {
    if n <= |a| && n <= |b| {
      assert a[..n][0] == a[0] && b[..n][0] == b[0];
    }
  }

  /** The order is that of dictionaries. */
  lemma {:induction false} LessIff(a: string, b: string)
    ensures Less(a, b) <==> exists n :: Precedes(a, b, n)
  {
    if a == "" || b == "" {
      if a == "" && b != "" { assert Precedes(a, b, 0); }
    } else if a[0] == b[0] {
      LessIff(a[1..], b[1..]);
      if n :| Precedes(a[1..], b[1..], n) { PrecedesLater(a, b, n); }
      if n: nat :| Precedes(a, b, n) { PrecedesLater(a, b, n - 1); }
    } else {
      if a[0] < b[0] { assert Precedes(a, b, 0); }
      forall n: nat | n > 0 ensures !Precedes(a, b, n) { DiffersAtOnce(a, b, n); }
    }
  }

  lemma {:induction false} LessTransitive(a: string, b: string, c: string)
    requires Less(a, b) && Less(b, c)
    ensures Less(a, c)
  {
    if a != "" && a[0] == b[0] && b[0] == c[0] {
      LessTransitive(a[1..], b[1..], c[1..]);
    }
  }

  predicate IsLeast(k: string, keys: set<string>) {
    k in keys && forall j :: j in keys ==> !Less(j, k)
  }

  lemma {:induction false} LeastExists(keys: set<string>)
    requires keys != {}
    ensures exists k :: IsLeast(k, keys)
    decreases |keys|
  {
    var x :| x in keys;
    if !IsLeast(x, keys) {
      var y :| y in keys && Less(y, x);
      LessTotal(x, x);
      LeastExists(keys - {x});
      var k :| IsLeast(k, keys - {x});
      if Less(x, k) {
        LessTransitive(y, x, k);
      }
      assert IsLeast(k, keys);
    }
  }

  lemma LeastUnique(keys: set<string>, a: string, b: string)
    requires IsLeast(a, keys) && IsLeast(b, keys)
    ensures a == b
  {
    LessTotal(a, b);
  }

  /** `Object.keys(value).sort()` */
  function SortedKeys(keys: set<string>): (ks: seq<string>)
    ensures forall k :: k in ks <==> k in keys
    decreases |keys|
  {
    if keys == {} then []
    else
      LeastExists(keys);
      assert forall a, b :: IsLeast(a, keys) && IsLeast(b, keys) ==> a == b by {
        forall a, b | IsLeast(a, keys) && IsLeast(b, keys) ensures a == b { LeastUnique(keys, a, b); }
      }
      var k :| k in keys && IsLeast(k, keys);
      [k] + SortedKeys(keys - {k})
  }

  // ----- `stable`

  function Hex(d: nat): char
    requires d < 16
  {
    if d < 10 then ('0' as int + d) as char else ('a' as int + d - 10) as char
  }

  /** One character of a JSON string, as `JSON.stringify` writes it. */
  function Escape(c: char): string {
    if c == '"' || c == '\\' then ['\\', c]
    else if c == '\n' then ['\\', 'n']
    else if c == '\r' then ['\\', 'r']
    else if c == '\t' then ['\\', 't']
    else if c as int == 8 then ['\\', 'b']
    else if c as int == 12 then ['\\', 'f']
    else if c as int < 32 then ['\\', 'u', '0', '0', Hex(c as int / 16), Hex(c as int % 16)]
    else [c]
  }

  function Escaped(s: string): string {
    if s == "" then "" else Escape(s[0]) + Escaped(s[1..])
  }

  function Numeral(n: int): string {
    if n < 0 then ['-'] + Strings.Decimal(-n) else Strings.Decimal(n)
  }

  /** Each part with a comma in front. */
  function After(parts: seq<string>): string {
    if parts == [] then "" else [','] + parts[0] + After(parts[1..])
  }

  /** `parts.join(',')` */
  function Listing(parts: seq<string>): string {
    if parts == [] then "" else parts[0] + After(parts[1..])
  }

  function Stable(v: Value): string {
    match v
    case Null => "null"
    case Bool(b) => if b then "true" else "false"
    case Num(n) => Numeral(n)
    case Str(s) => ['"'] + Escaped(s) + ['"']
    case Arr(items) => ['['] + Listing(seq(|items|, i requires 0 <= i < |items| => Stable(items[i]))) + [']']
    case Obj(m) =>
      var ks := SortedKeys(m.Keys);
      ['{']
      + Listing(seq(|ks|, i requires 0 <= i < |ks| => assert ks[i] in ks; ks[i] + [':'] + Stable(m[ks[i]])))
      + ['}']
  }

  /** Keys such as identifiers: `stable` writes them without quotes. */
  predicate PlainKey(k: string) {
    ':' !in k && !(|k| >= 2 && k[0] == '}' && (k[1] == ',' || k[1] == ']' || k[1] == '}'))
  }

  predicate Plain(v: Value) {
    match v
    case Arr(items) => forall i :: 0 <= i < |items| ==> Plain(items[i])
    case Obj(m) => forall k :: k in m ==> PlainKey(k) && Plain(m[k])
    case _ => true
  }

  // ----- `stable` is unambiguous

  /** What can follow a value inside a text. */
  predicate Ends(rest: string) {
    rest == "" || rest[0] == ',' || rest[0] == ']' || rest[0] == '}'
  }

  lemma EscapeUnambiguous(c: char, d: char, r: string, q: string)
    requires Escape(c) + r == Escape(d) + q
    ensures c == d && r == q
  {
    var s, t := Escape(c) + r, Escape(d) + q;
    assert s[0] == Escape(c)[0] && t[0] == Escape(d)[0];
    if Escape(c)[0] == '\\' {
      assert s[1] == Escape(c)[1] && t[1] == Escape(d)[1];
      if Escape(c)[1] == 'u' {
        assert s[4] == Hex(c as int / 16) && t[4] == Hex(d as int / 16);
        assert s[5] == Hex(c as int % 16) && t[5] == Hex(d as int % 16);
        assert c as int == d as int;
      }
    }
    assert c == d;
    assert r == s[|Escape(c)|..] && q == t[|Escape(d)|..];
  }

  lemma EscapedStart(a: string, r: string)
    ensures (Escaped(a) + ['"'] + r)[0] == '"' <==> a == ""
  {
    if a != "" { assert (Escaped(a) + ['"'] + r)[0] == Escape(a[0])[0]; }
  }

  lemma EscapedStep(a: string, r: string)
    requires a != ""
    ensures Escaped(a) + ['"'] + r == Escape(a[0]) + (Escaped(a[1..]) + ['"'] + r)
  {
  }

  lemma {:induction false} StringUnambiguous(a: string, b: string, r: string, q: string)
    requires Escaped(a) + ['"'] + r == Escaped(b) + ['"'] + q
    ensures a == b && r == q
  {
    EscapedStart(a, r);
    EscapedStart(b, q);
    if a == "" {
      assert (Escaped(a) + ['"'] + r)[1..] == r && (Escaped(b) + ['"'] + q)[1..] == q;
    } else {
      EscapedStep(a, r);
      EscapedStep(b, q);
      EscapeUnambiguous(a[0], b[0], Escaped(a[1..]) + ['"'] + r, Escaped(b[1..]) + ['"'] + q);
      StringUnambiguous(a[1..], b[1..], r, q);
      assert a == [a[0]] + a[1..] && b == [b[0]] + b[1..];
    }
  }

  /** The characters of a number at the start of a text. */
  function Digits(s: string): string {
    if s == "" || !(Strings.IsDigit(s[0]) || s[0] == '-') then "" else [s[0]] + Digits(s[1..])
  }

  lemma {:induction false} DigitsOf(a: string, r: string)
    requires forall i :: 0 <= i < |a| ==> Strings.IsDigit(a[i]) || a[i] == '-'
    requires Ends(r)
    ensures Digits(a + r) == a
  {
    if a == "" {
      assert a + r == r;
    } else {
      DigitsOf(a[1..], r);
      assert (a + r)[1..] == a[1..] + r;
    }
  }

  function NumeralValue(s: string): int
    requires s != "" && Strings.AllDigits(s[1..]) && (s[0] != '-' ==> Strings.AllDigits(s))
  {
    if s[0] == '-' then 0 - Strings.Value(s[1..]) else Strings.Value(s)
  }

  lemma NumeralBack(n: int)
    ensures Numeral(n) != "" && Strings.AllDigits(Numeral(n)[1..])
    ensures Numeral(n)[0] != '-' ==> Strings.AllDigits(Numeral(n))
    ensures NumeralValue(Numeral(n)) == n
  {
    if n < 0 {
      Strings.DecimalValue(-n);
      assert Numeral(n)[1..] == Strings.Decimal(-n);
    } else {
      Strings.DecimalValue(n);
      assert Strings.IsDigit(Numeral(n)[0]);
    }
  }

  lemma NumeralUnambiguous(m: int, n: int, r: string, q: string)
    requires Ends(r) && Ends(q) && Numeral(m) + r == Numeral(n) + q
    ensures m == n
  {
    DigitsOf(Numeral(m), r);
    DigitsOf(Numeral(n), q);
    NumeralBack(m);
    NumeralBack(n);
  }

  /** The first character tells the kind of value. */
  function Lead(v: Value): set<char> {
    match v
    case Null => {'n'}
    case Bool(b) => if b then {'t'} else {'f'}
    case Num(n) => {'-', '0', '1', '2', '3', '4', '5', '6', '7', '8', '9'}
    case Str(_) => {'"'}
    case Arr(_) => {'['}
    case Obj(_) => {'{'}
  }

  lemma StableLead(v: Value)
    ensures Stable(v) != "" && Stable(v)[0] in Lead(v)
  {
    if v.Num? {
      assert Numeral(v.number)[0] == '-' || Strings.IsDigit(Numeral(v.number)[0]);
    }
  }

  lemma Cancel(a: string, r: string, q: string)
    requires a + r == a + q
    ensures r == q
  {
    assert (a + r)[|a|..] == r && (a + q)[|a|..] == q;
  }

  lemma KeyUnambiguous(k: string, l: string, r: string, q: string)
    requires ':' !in k && ':' !in l && k + [':'] + r == l + [':'] + q
    ensures k == l && r == q
  {
    Strings.CutFirst(k, ':', r);
    Strings.CutFirst(l, ':', q);
  }

  function Texts(items: seq<Value>): seq<string> {
    seq(|items|, i requires 0 <= i < |items| => Stable(items[i]))
  }

  function Entry(m: Fields, k: string): string
    requires k in m
  {
    k + [':'] + Stable(m[k])
  }

  function Entries(m: Fields, ks: seq<string>): seq<string>
    requires forall i :: 0 <= i < |ks| ==> ks[i] in m
  {
    seq(|ks|, i requires 0 <= i < |ks| => Entry(m, ks[i]))
  }

  lemma AfterEnds(parts: seq<string>, close: char, r: string)
    requires close == ']' || close == '}'
    ensures Ends(After(parts) + [close] + r)
    ensures (After(parts) + [close] + r)[0] == close <==> parts == []
  {
    if parts != [] { assert After(parts)[0] == ','; }
  }

  lemma AfterStep(parts: seq<string>, i: nat, close: char, r: string)
    requires i < |parts|
    ensures After(parts[i..]) + [close] + r == [','] + (parts[i] + (After(parts[i + 1..]) + [close] + r))
  {
    assert parts[i..][1..] == parts[i + 1..];
  }

  lemma ListingAfter(parts: seq<string>, close: char, r: string)
    requires parts != []
    ensures [','] + (Listing(parts) + [close] + r) == After(parts) + [close] + r
  {
  }

  lemma StableFirst(v: Value, r: string)
    ensures Stable(v) + r != "" && (Stable(v) + r)[0] in Lead(v)
  {
    StableLead(v);
  }

  lemma StableArr(items: seq<Value>, r: string)
    ensures Stable(Arr(items)) + r == ['['] + (Listing(Texts(items)) + [']'] + r)
  {
    assert Texts(items) == seq(|items|, i requires 0 <= i < |items| => Stable(items[i]));
  }

  lemma StableObj(m: Fields, r: string)
    ensures forall k :: k in SortedKeys(m.Keys) ==> k in m
    ensures Stable(Obj(m)) + r == ['{'] + (Listing(Entries(m, SortedKeys(m.Keys))) + ['}'] + r)
  {
    var ks := SortedKeys(m.Keys);
    assert Entries(m, ks)
        == seq(|ks|, i requires 0 <= i < |ks| => assert ks[i] in ks; ks[i] + [':'] + Stable(m[ks[i]]));
  }

  lemma TextsAt(items: seq<Value>, i: nat)
    requires i < |items|
    ensures Texts(items)[i] == Stable(items[i]) && Texts(items)[i] != "" && Texts(items)[i][0] != ']'
  {
    StableLead(items[i]);
  }

  lemma {:induction false} ItemsUnambiguous(v: Value, w: Value, i: nat, r: string, q: string)
    requires v.Arr? && w.Arr? && Plain(v) && Plain(w) && i <= |v.items| && i <= |w.items|
    requires After(Texts(v.items)[i..]) + [']'] + r == After(Texts(w.items)[i..]) + [']'] + q
    ensures v.items[i..] == w.items[i..]
    decreases v, 0, |v.items| - i
  {
    var ps, qs := Texts(v.items), Texts(w.items);
    AfterEnds(ps[i..], ']', r);
    AfterEnds(qs[i..], ']', q);
    if i < |v.items| {
      AfterStep(ps, i, ']', r);
      AfterStep(qs, i, ']', q);
      AfterEnds(ps[i + 1..], ']', r);
      AfterEnds(qs[i + 1..], ']', q);
      var x, y := After(ps[i + 1..]) + [']'] + r, After(qs[i + 1..]) + [']'] + q;
      Cancel([','], ps[i] + x, qs[i] + y);
      Unambiguous(v.items[i], w.items[i], x, y);
      Cancel(ps[i], x, y);
      ItemsUnambiguous(v, w, i + 1, r, q);
      assert v.items[i..] == [v.items[i]] + v.items[i + 1..] && w.items[i..] == [w.items[i]] + w.items[i + 1..];
    }
  }

  lemma PlainField(v: Value, k: string)
    requires v.Obj? && Plain(v) && k in v.fields
    ensures PlainKey(k) && Plain(v.fields[k])
  {
  }

  lemma EntryUnambiguous(m: Fields, n: Fields, k: string, l: string, x: string, y: string)
    requires k in m && l in n && PlainKey(k) && PlainKey(l) && Entry(m, k) + x == Entry(n, l) + y
    ensures k == l && Stable(m[k]) + x == Stable(n[l]) + y
  {
    hide Stable;
    assert Entry(m, k) + x == k + [':'] + (Stable(m[k]) + x);
    assert Entry(n, l) + y == l + [':'] + (Stable(n[l]) + y);
    KeyUnambiguous(k, l, Stable(m[k]) + x, Stable(n[l]) + y);
  }

  lemma {:induction false} FieldsUnambiguous(v: Value, w: Value, ks: seq<string>, ls: seq<string>, i: nat, r: string,
                                             q: string)
    requires v.Obj? && w.Obj? && Plain(v) && Plain(w) && i <= |ks| && i <= |ls|
    requires (forall j :: 0 <= j < |ks| ==> ks[j] in v.fields) && forall j :: 0 <= j < |ls| ==> ls[j] in w.fields
    requires After(Entries(v.fields, ks)[i..]) + ['}'] + r == After(Entries(w.fields, ls)[i..]) + ['}'] + q
    ensures ks[i..] == ls[i..] && forall j :: i <= j < |ks| ==> ks[j] in w.fields && v.fields[ks[j]] == w.fields[ks[j]]
    decreases v, 0, |ks| - i
  {
    hide Plain, Stable, After, Ends;
    var ps, qs := Entries(v.fields, ks), Entries(w.fields, ls);
    AfterEnds(ps[i..], '}', r);
    AfterEnds(qs[i..], '}', q);
    if i < |ks| {
      AfterStep(ps, i, '}', r);
      AfterStep(qs, i, '}', q);
      AfterEnds(ps[i + 1..], '}', r);
      AfterEnds(qs[i + 1..], '}', q);
      var x, y := After(ps[i + 1..]) + ['}'] + r, After(qs[i + 1..]) + ['}'] + q;
      Cancel([','], ps[i] + x, qs[i] + y);
      PlainField(v, ks[i]);
      PlainField(w, ls[i]);
      EntryUnambiguous(v.fields, w.fields, ks[i], ls[i], x, y);
      Unambiguous(v.fields[ks[i]], w.fields[ls[i]], x, y);
      Cancel(ps[i], x, y);
      FieldsUnambiguous(v, w, ks, ls, i + 1, r, q);
      assert ks[i..] == [ks[i]] + ks[i + 1..] && ls[i..] == [ls[i]] + ls[i + 1..];
    }
  }

  /** A value's text, up to where it ends, determines the value. */
  lemma {:induction false} Unambiguous(v: Value, w: Value, r: string, q: string)
    requires Plain(v) && Plain(w) && Ends(r) && Ends(q) && Stable(v) + r == Stable(w) + q
    ensures v == w
    decreases v, 1, 0
  {
    hide Stable, Plain, Numeral;
    StableFirst(v, r);
    StableFirst(w, q);
    match v
    case Null =>
    case Bool(_) =>
    case Num(_) => NumUnambiguous(v, w, r, q);
    case Str(_) => StrUnambiguous(v, w, r, q);
    case Arr(_) => ArrUnambiguous(v, w, r, q);
    case Obj(_) => ObjUnambiguous(v, w, r, q);
  }

  lemma NumUnambiguous(v: Value, w: Value, r: string, q: string)
    requires v.Num? && w.Num? && Ends(r) && Ends(q) && Stable(v) + r == Stable(w) + q
    ensures v == w
  {
    NumeralUnambiguous(v.number, w.number, r, q);
  }

  lemma {:induction false} QuotedTail(v: Value, r: string)
    requires v.Str?
    ensures Stable(v) + r != "" && (Stable(v) + r)[1..] == Escaped(v.text) + ['"'] + r
  {
    hide Escaped;
  }

  lemma {:induction false} StrUnambiguous(v: Value, w: Value, r: string, q: string)
    requires v.Str? && w.Str? && Stable(v) + r == Stable(w) + q
    ensures v == w
  {
    QuotedTail(v, r);
    QuotedTail(w, q);
    hide Stable, Escaped;
    StringUnambiguous(v.text, w.text, r, q);
  }

  lemma {:induction false} ArrUnambiguous(v: Value, w: Value, r: string, q: string)
    requires v.Arr? && w.Arr? && Plain(v) && Plain(w) && Stable(v) + r == Stable(w) + q
    ensures v == w
    decreases v, 0, |v.items| + 1
  {
    var ps, qs := Texts(v.items), Texts(w.items);
    StableArr(v.items, r);
    StableArr(w.items, q);
    Cancel(['['], Listing(ps) + [']'] + r, Listing(qs) + [']'] + q);
    ListingStart(v.items, r);
    ListingStart(w.items, q);
    if v.items != [] {
      ListingAfter(ps, ']', r);
      ListingAfter(qs, ']', q);
      assert ps[0..] == ps && qs[0..] == qs;
      ItemsUnambiguous(v, w, 0, r, q);
      assert v.items[0..] == v.items && w.items[0..] == w.items;
    }
  }

  lemma ListingStart(items: seq<Value>, r: string)
    ensures (Listing(Texts(items)) + [']'] + r)[0] == ']' <==> items == []
  {
    if items != [] { TextsAt(items, 0); }
  }

  /** Entries are never taken for an empty object that ends where a value may end. */
  lemma EntriesAreSome(m: Fields, ks: seq<string>, q: string, r: string)
    requires ks != [] && Ends(r) && forall i :: 0 <= i < |ks| ==> ks[i] in m && PlainKey(ks[i])
    ensures Listing(Entries(m, ks)) + ['}'] + q != ['}'] + r
  {
    var k, text := ks[0], Listing(Entries(m, ks)) + ['}'] + q;
    var e := Entries(m, ks)[0];
    assert e == k + [':'] + Stable(m[k]);
    StableLead(m[k]);
    hide Stable;
    assert |e| >= 2 && text[0] == e[0] && text[1] == e[1];
    assert (['}'] + r)[0] == '}' && (r != "" ==> (['}'] + r)[1] == r[0]);
  }

  lemma {:induction false} ObjUnambiguous(v: Value, w: Value, r: string, q: string)
    requires v.Obj? && w.Obj? && Plain(v) && Plain(w) && Ends(r) && Ends(q) && Stable(v) + r == Stable(w) + q
    ensures v == w
    decreases v, 0, |SortedKeys(v.fields.Keys)| + 1
  {
    var ks, ls := SortedKeys(v.fields.Keys), SortedKeys(w.fields.Keys);
    hide Stable, Listing, Plain, PlainKey, Ends, SortedKeys;
    StableObj(v.fields, r);
    StableObj(w.fields, q);
    var ps, qs := Entries(v.fields, ks), Entries(w.fields, ls);
    Cancel(['{'], Listing(ps) + ['}'] + r, Listing(qs) + ['}'] + q);
    BothEmpty(v, w, ks, ls, r, q);
    if ks != [] {
      ListingAfter(ps, '}', r);
      ListingAfter(qs, '}', q);
      assert ps[0..] == ps && qs[0..] == qs;
      FieldsUnambiguous(v, w, ks, ls, 0, r, q);
      assert ks[0..] == ks && ls[0..] == ls;
    }
    SameFields(v.fields, w.fields, ks);
  }

  lemma {:induction false} BothEmpty(v: Value, w: Value, ks: seq<string>, ls: seq<string>, r: string, q: string)
    requires v.Obj? && w.Obj? && Plain(v) && Plain(w) && Ends(r) && Ends(q)
    requires (forall k :: k in ks ==> k in v.fields) && (forall l :: l in ls ==> l in w.fields)
    requires Listing(Entries(v.fields, ks)) + ['}'] + r == Listing(Entries(w.fields, ls)) + ['}'] + q
    ensures ks == [] <==> ls == []
  {
    forall i | 0 <= i < |ks| ensures PlainKey(ks[i]) { PlainField(v, ks[i]); }
    forall i | 0 <= i < |ls| ensures PlainKey(ls[i]) { PlainField(w, ls[i]); }
    hide Stable, Plain, PlainKey, Ends;
    if ks == [] && ls != [] { EntriesAreSome(w.fields, ls, q, r); }
    if ls == [] && ks != [] { EntriesAreSome(v.fields, ks, r, q); }
  }

  lemma SameFields(m: Fields, n: Fields, ks: seq<string>)
    requires (forall k :: k in ks <==> k in m) && (forall k :: k in ks <==> k in n)
    requires forall j :: 0 <= j < |ks| ==> ks[j] in m && ks[j] in n && m[ks[j]] == n[ks[j]]
    ensures m == n
  {
    forall k | k in m ensures k in n && m[k] == n[k] {
      assert k in ks;
    }
  }

  /** Values with plain keys have the same text only when they are equal up to key order. */
  lemma StableInjective(v: Value, w: Value)
    requires Plain(v) && Plain(w)
    ensures Stable(v) == Stable(w) <==> v == w
  {
    if Stable(v) == Stable(w) {
      assert Stable(v) + "" == Stable(v) && Stable(w) + "" == Stable(w);
      Unambiguous(v, w, "", "");
    }
  }

  lemma SingleKey(k: string)
    ensures SortedKeys({k}) == [k]
  {
    LessTotal(k, k);
    assert IsLeast(k, {k});
    assert {k} - {k} == {};
  }

  lemma TwoKeys(a: string, b: string)
    requires Less(a, b)
    ensures SortedKeys({a, b}) == [a, b]
  {
    LessTotal(a, b);
    LessTotal(a, a);
    assert IsLeast(a, {a, b});
    assert {a, b} - {a} == {b};
    SingleKey(b);
  }

  lemma StableSingle(k: string, y: Value)
    ensures Stable(Obj(map[k := y])) == ['{'] + k + [':'] + Stable(y) + ['}']
  {
    hide Stable, Listing, Entries, SortedKeys, Less, Entry;
    var n: Fields := map[k := y];
    assert n.Keys == {k};
    SingleKey(k);
    StableObj(n, "");
    ListingEntry(n, k);
    EntryIs(n, k);
    assert Stable(Obj(n)) + "" == Stable(Obj(n));
  }

  lemma ListingEntry(m: Fields, k: string)
    requires k in m
    ensures Listing(Entries(m, [k])) == Entry(m, k)
  {
    assert Entries(m, [k]) == [Entry(m, k)];
    assert [Entry(m, k)][1..] == [];
    assert After([]) == "";
  }

  lemma ListingTwo(e: string, f: string)
    ensures Listing([e, f]) == e + [','] + f
  {
    assert [e, f][1..] == [f];
    assert [f][1..] == [];
    assert After([f]) == [','] + f + After([]);
  }

  lemma ListingEntries(m: Fields, a: string, b: string)
    requires a in m && b in m
    ensures Listing(Entries(m, [a, b])) == Entry(m, a) + [','] + Entry(m, b)
  {
    assert Entries(m, [a, b]) == [Entry(m, a), Entry(m, b)];
    ListingTwo(Entry(m, a), Entry(m, b));
  }

  lemma StableDouble(a: string, b: string, x: Value, y: Value)
    requires Less(a, b)
    ensures Stable(Obj(map[a := x, b := y])) == ['{'] + a + [':'] + Stable(x) + [','] + b + [':'] + Stable(y) + ['}']
  {
    hide Stable, Listing, Entries, SortedKeys, Less, Entry;
    LessTotal(a, b);
    var m: Fields := map[a := x, b := y];
    assert m.Keys == {a, b};
    TwoKeys(a, b);
    StableObj(m, "");
    ListingEntries(m, a, b);
    EntryIs(m, a);
    EntryIs(m, b);
    assert Stable(Obj(m)) + "" == Stable(Obj(m));
  }

  lemma EntryIs(m: Fields, k: string)
    requires k in m
    ensures Entry(m, k) == k + [':'] + Stable(m[k])
  {
  }

  /** A key that holds the punctuation of two entries is taken for them. */
  lemma PunctuatedKeyCollides(a: string, b: string, x: Value, y: Value)
    requires Less(a, b)
    ensures Stable(Obj(map[a + [':'] + Stable(x) + [','] + b := y])) == Stable(Obj(map[a := x, b := y]))
  {
    hide Stable, SortedKeys;
    var key := a + [':'] + Stable(x) + [','] + b;
    StableSingle(key, y);
    StableDouble(a, b, x, y);
  }

  lemma ListingThree(e: string, f: string, g: string)
    ensures Listing([e, f, g]) == e + [','] + f + [','] + g
  {
    assert [e, f, g][1..] == [f, g] && [f, g][1..] == [g] && [g][1..] == [];
    assert After([g]) == [','] + g + After([]);
    assert After([f, g]) == [','] + f + After([g]);
  }

  lemma StableNothing()
    ensures Stable(Obj(map[])) == "{}"
  {
    var m: Fields := map[];
    assert m.Keys == {};
  }

  /** Text without quotes, backslashes and control characters is written as it is. */
  lemma {:induction false} EscapedPlain(s: string)
    requires forall i :: 0 <= i < |s| ==> s[i] >= ' ' && s[i] != '"' && s[i] != '\\'
    ensures Escaped(s) == s
  {
    if s != "" {
      EscapedPlain(s[1..]);
      assert s == [s[0]] + s[1..];
    }
  }

  lemma StableItems(items: seq<Value>, parts: seq<string>)
    requires |items| == |parts| && forall i :: 0 <= i < |items| ==> Stable(items[i]) == parts[i]
    ensures Stable(Arr(items)) == ['['] + Listing(parts) + [']']
  {
    hide Stable, Listing;
    StableArr(items, "");
    assert Texts(items) == parts;
    assert Stable(Arr(items)) + "" == Stable(Arr(items));
    assert ['['] + (Listing(parts) + [']'] + "") == ['['] + Listing(parts) + [']'];
  }

  lemma StableMixed(text: string, b: string, y: Value)
    requires Escaped(text) == text
    ensures Stable(Arr([Obj(map[]), Str(text), Obj(map[b := y])]))
         == ['['] + ("{}" + [','] + (['"'] + text + ['"']) + [','] + (['{'] + b + [':'] + Stable(y) + ['}'])) + [']']
  {
    StableQuoted(text);
    StableNothing();
    StableSingle(b, y);
    hide Stable, Listing;
    var e, f, g := "{}", ['"'] + text + ['"'], ['{'] + b + [':'] + Stable(y) + ['}'];
    StableItems([Obj(map[]), Str(text), Obj(map[b := y])], [e, f, g]);
    ListingThree(e, f, g);
  }

  lemma StableSingles(k: string, x: Value, l: string, y: Value)
    ensures Stable(Arr([Obj(map[k := x]), Obj(map[l := y])]))
         == ['['] + ((['{'] + k + [':'] + Stable(x) + ['}']) + [','] + (['{'] + l + [':'] + Stable(y) + ['}'])) + [']']
  {
    StableSingle(k, x);
    StableSingle(l, y);
    hide Stable, Listing;
    var p, q := ['{'] + k + [':'] + Stable(x) + ['}'], ['{'] + l + [':'] + Stable(y) + ['}'];
    StableItems([Obj(map[k := x]), Obj(map[l := y])], [p, q]);
    ListingTwo(p, q);
  }

  /** A key that starts with `},` is taken for an empty object and what follows it. */
  lemma BraceKeyCollides(b: string, y: Value)
    ensures Stable(Arr([Obj(map[]), Str("x:1},{y"), Obj(map[b := y])]))
         == Stable(Arr([Obj(map["},\"x" := Num(1)]), Obj(map["y\",{" + b := y])]))
  {
    hide Stable, Escaped;
    EscapedPlain("x:1},{y");
    OneIsOne();
    StableMixed("x:1},{y", b, y);
    StableSingles("},\"x", Num(1), "y\",{" + b, y);
    BraceTexts(b, Stable(y));
  }

  lemma StableQuoted(text: string)
    requires Escaped(text) == text
    ensures Stable(Str(text)) == ['"'] + text + ['"']
  {
  }

  lemma OneIsOne()
    ensures Stable(Num(1)) == "1"
  {
    assert Strings.Decimal(1) == "1";
  }

  lemma BraceTexts(b: string, y: string)
    ensures "{}" + [','] + (['"'] + "x:1},{y" + ['"']) + [','] + (['{'] + b + [':'] + y + ['}'])
         == (['{'] + "},\"x" + [':'] + "1" + ['}']) + [','] + (['{'] + ("y\",{" + b) + [':'] + y + ['}'])
  {
  }
}
