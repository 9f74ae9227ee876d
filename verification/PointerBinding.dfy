/**
 Binding resolution of apps/app/common/ui-views.ts: JSON Pointers as in sections 3 and 4
 of RFC 6901, evaluated without property expressions.
 */
module PointerBinding {
  import opened Options
  import opened Strings

  datatype Json = Undefined | Null | Bool(b: bool) | Number(n: int) | Text(s: string)
                | Array(items: seq<Json>) | Object(members: map<string, Json>)

  // ----- Reference tokens

  /** `replace(/~d/g, r)`: every '~' followed by d becomes r, from left to right. */
  function ReplaceAll(s: string, d: char, r: char): string {
    if s == "" then ""
    else if |s| >= 2 && s[0] == '~' && s[1] == d then [r] + ReplaceAll(s[2..], d, r)
    else [s[0]] + ReplaceAll(s[1..], d, r)
  }

  function DecodePointerToken(token: string): string {
    ReplaceAll(ReplaceAll(token, '1', '/'), '0', '~')
  }

  function EscapeChar(c: char): string {
    if c == '~' then "~0" else if c == '/' then "~1" else [c]
  }

  /** The escaping of section 3: '~' is written ~0 and '/' is written ~1. */
  function EscapeToken(name: string): string {
    if name == "" then "" else EscapeChar(name[0]) + EscapeToken(name[1..])
  }

  /** Halfway through decoding: slashes are restored, tildes still escaped. */
  function HalfEscaped(name: string): string {
    if name == "" then ""
    else (if name[0] == '~' then "~0" else [name[0]]) + HalfEscaped(name[1..])
  }

  /** Decoding inverts escaping for every name. */
  lemma DecodeEscape(name: string)
    ensures DecodePointerToken(EscapeToken(name)) == name
  {
    FirstPass(name);
    SecondPass(name);
  }

  lemma ReplaceOther(c: char, rest: string, d: char, r: char)
    requires c != '~'
    ensures ReplaceAll([c] + rest, d, r) == [c] + ReplaceAll(rest, d, r)
  {
    assert ([c] + rest)[1..] == rest;
  }

  lemma ReplacePair(x: char, rest: string, d: char, r: char)
    requires x != '~'
    ensures ReplaceAll(['~', x] + rest, d, r) == (if x == d then [r] else ['~', x]) + ReplaceAll(rest, d, r)
  {
    var s := ['~', x] + rest;
    assert s[2..] == rest && s[1..] == [x] + rest;
    ReplaceOther(x, rest, d, r);
  }

  lemma {:induction false} FirstPass(name: string)
    ensures ReplaceAll(EscapeToken(name), '1', '/') == HalfEscaped(name)
  {
    if name != "" {
      var rest := EscapeToken(name[1..]);
      FirstPass(name[1..]);
      if name[0] == '~' {
        ReplacePair('0', rest, '1', '/');
      } else if name[0] == '/' {
        ReplacePair('1', rest, '1', '/');
      } else {
        ReplaceOther(name[0], rest, '1', '/');
      }
    }
  }

  lemma {:induction false} SecondPass(name: string)
    ensures ReplaceAll(HalfEscaped(name), '0', '~') == name
  {
    if name != "" {
      var rest := HalfEscaped(name[1..]);
      SecondPass(name[1..]);
      assert name == [name[0]] + name[1..];
      if name[0] == '~' {
        ReplacePair('0', rest, '0', '~');
      } else {
        ReplaceOther(name[0], rest, '0', '~');
      }
    }
  }

  /** Section 3's grammar: every '~' is followed by '0' or '1'. */
  predicate ValidToken(token: string) {
    token == "" ||
    if token[0] == '~' then |token| >= 2 && token[1] in {'0', '1'} && ValidToken(token[2..])
    else token[0] != '/' && ValidToken(token[1..])
  }

  /** Section 4's decoding in one left-to-right pass. */
  function DecodeOnce(token: string): string
    requires ValidToken(token)
  {
    if token == "" then ""
    else if token[0] == '~' then [if token[1] == '1' then '/' else '~'] + DecodeOnce(token[2..])
    else [token[0]] + DecodeOnce(token[1..])
  }

  /** The two replacements agree with the standard's decoding on every valid token. */
  lemma TwoPassesDecode(token: string)
    requires ValidToken(token)
    ensures DecodePointerToken(token) == DecodeOnce(token)
  {
    EscapeDecoded(token);
    DecodeEscape(DecodeOnce(token));
  }

  lemma EscapeFront(c: char, rest: string)
    ensures EscapeToken([c] + rest) == EscapeChar(c) + EscapeToken(rest)
  {
    assert ([c] + rest)[1..] == rest;
  }

  lemma {:induction false} EscapeDecoded(token: string)
    requires ValidToken(token)
    ensures EscapeToken(DecodeOnce(token)) == token
  {
    if token != "" {
      if token[0] == '~' {
        EscapeDecoded(token[2..]);
        EscapeFront(if token[1] == '1' then '/' else '~', DecodeOnce(token[2..]));
        assert token == [token[0], token[1]] + token[2..];
      } else {
        EscapeDecoded(token[1..]);
        EscapeFront(token[0], DecodeOnce(token[1..]));
        assert token == [token[0]] + token[1..];
      }
    }
  }

  // ----- Resolution

  /** One step of the walk; `None` stands for the fallback. */
  function Enter(current: Json, token: string): Option<Json> {
    match current
    case Array(items) =>
      if token != "" && AllDigits(token) && Value(token) < |items| && items[Value(token)] != Undefined
      then Some(items[Value(token)]) else None
    case Object(members) =>
      if token in members && members[token] != Undefined then Some(members[token]) else None
    case _ => None
  }

  /** Following decoded reference tokens from a value. */
  function Follow(current: Json, tokens: seq<string>): Option<Json> {
    if tokens == [] then Some(current)
    else
      var next := Enter(current, tokens[0]);
      if next.None? then None else Follow(next.value, tokens[1..])
  }

  function DecodeAll(raws: seq<string>): (tokens: seq<string>)
    ensures |tokens| == |raws| && forall i :: 0 <= i < |raws| ==> tokens[i] == DecodePointerToken(raws[i])
  {
    seq(|raws|, i requires 0 <= i < |raws| => DecodePointerToken(raws[i]))
  }

  function Start(source: string, data: map<string, Json>): Json {
    if source == "data" then Object(data) else if source in data then data[source] else Undefined
  }

  function Resolve(source: string, pointer: string, fallback: Json, data: map<string, Json>): Json {
    var start := Start(source, data);
    var found := if pointer == "" then Some(start)
                 else if pointer[0] != '/' then None
                 else Follow(start, DecodeAll(Split(pointer[1..], '/')));
    OrFallback(found, fallback)
  }

  function OrFallback(found: Option<Json>, fallback: Json): Json {
    if found.None? || found.value == Undefined then fallback else found.value
  }

  method ResolveUIBinding(source: string, pointer: string, fallback: Json, data: map<string,
                          Json>) returns (result: Json)
    ensures result == Resolve(source, pointer, fallback, data)
  {
    var current := Start(source, data);
    if pointer != "" {
      if pointer[0] != '/' { return fallback; }
      var raws := Split(pointer[1..], '/');
      ghost var tokens := DecodeAll(raws);
      ghost var start := current;
      for i := 0 to |raws|
        invariant Follow(start, tokens) == Follow(current, tokens[i..])
      {
        var token := DecodePointerToken(raws[i]);
        assert tokens[i..][0] == token && tokens[i..][1..] == tokens[i + 1..];
        if current.Array? {
          if !(token != "" && AllDigits(token)) { return fallback; }
          var index := Value(token);
          current := if index < |current.items| then current.items[index] else Undefined;
        } else if current.Object? {
          if token !in current.members { return fallback; }
          current := current.members[token];
        } else {
          return fallback;
        }
        if current == Undefined { return fallback; }
      }
    }
    result := if current == Undefined then fallback else current;
  }

  // ----- Pointers printed from paths

  datatype Key = Member(name: string) | Index(at: nat)

  function KeyName(key: Key): string {
    match key case Member(name) => name case Index(at) => Decimal(at)
  }

  function Names(path: seq<Key>): (names: seq<string>)
    ensures |names| == |path| && forall i :: 0 <= i < |path| ==> names[i] == KeyName(path[i])
  {
    seq(|path|, i requires 0 <= i < |path| => KeyName(path[i]))
  }

  function EscapeAll(names: seq<string>): (raws: seq<string>)
    ensures |raws| == |names| && forall i :: 0 <= i < |names| ==> raws[i] == EscapeToken(names[i])
  {
    seq(|names|, i requires 0 <= i < |names| => EscapeToken(names[i]))
  }

  function PrintPointer(path: seq<Key>): string {
    if path == [] then "" else ['/'] + Join(EscapeAll(Names(path)), '/')
  }

  /** The value a path of keys and indices leads to, if it is there. */
  function At(v: Json, path: seq<Key>): Option<Json> {
    if path == [] then Some(v)
    else
      match (v, path[0])
      case (Object(members), Member(name)) =>
        if name in members && members[name] != Undefined then At(members[name], path[1..]) else None
      case (Array(items), Index(at)) =>
        if at < |items| && items[at] != Undefined then At(items[at], path[1..]) else None
      case _ => None
  }

  /** A name is spelled like the member of that name and, if it has digits only, like the index of that value. */
  predicate SpelledAlike(other: Key, key: Key) {
    var name := KeyName(key);
    other == Member(name) || (name != "" && AllDigits(name) && other == Index(Value(name)))
  }

  predicate PathsAlike(other: seq<Key>, path: seq<Key>) {
    |other| == |path| && forall i :: 0 <= i < |path| ==> SpelledAlike(other[i], path[i])
  }

  /** The document has nothing at the path but something at a path spelled alike. */
  ghost predicate Misread(v: Json, path: seq<Key>) {
    At(v, path).None? && exists other :: PathsAlike(other, path) && At(v, other).Some?
  }

  /** A printed pointer resolves to what its names lead to, for every document and path. */
  lemma PrintedPointerFollows(source: string, path: seq<Key>, fallback: Json, data: map<string, Json>)
    ensures Resolve(source, PrintPointer(path), fallback, data)
         == OrFallback(Follow(Start(source, data), Names(path)), fallback)
  {
    if path != [] {
      var names, raws := Names(path), EscapeAll(Names(path));
      forall i | 0 <= i < |raws| ensures '/' !in raws[i] && DecodePointerToken(raws[i]) == names[i] {
        EscapedHasNoSlash(names[i]);
        DecodeEscape(names[i]);
      }
      SplitJoin(raws, '/');
      assert PrintPointer(path)[1..] == Join(raws, '/');
      assert DecodeAll(raws) == names;
    }
  }

  lemma {:induction false} EscapedHasNoSlash(name: string)
    ensures '/' !in EscapeToken(name)
  {
    if name != "" { EscapedHasNoSlash(name[1..]); }
  }

  /**
   Resolving the pointer printed from a path returns the value at that path, or the
   fallback when nothing is there, for exactly the paths the document does not misread.
   Pointers do not tell an index from a member name with the same digits.
   */
  lemma PointerEvaluatesIff(source: string, path: seq<Key>, data: map<string, Json>)
    ensures var start := Start(source, data);
            var pointer := PrintPointer(path);
            (forall fallback :: Resolve(source, pointer, fallback, data) == OrFallback(At(start, path), fallback))
            <==> !Misread(start, path)
  {
    var start := Start(source, data);
    forall fallback
      ensures Resolve(source, PrintPointer(path), fallback, data) == OrFallback(Follow(start, Names(path)), fallback)
    {
      PrintedPointerFollows(source, path, fallback, data);
    }
    FollowsAlike(start, path);
    if Misread(start, path) {
      var found := Follow(start, Names(path)).value;
      FoundIsDefined(start, Names(path));
      var other := if found == Null then Bool(true) else Null;
      assert OrFallback(At(start, path), other) == other;
      assert Resolve(source, PrintPointer(path), other, data) == found;
    }
  }

  /** The walk finds what is at the path or at a path spelled alike, and nothing else. */
  lemma FollowsAlike(v: Json, path: seq<Key>)
    ensures At(v, path).Some? ==> Follow(v, Names(path)) == At(v, path)
    ensures Follow(v, Names(path)).Some? <==> exists other :: PathsAlike(other, path) && At(v, other).Some?
    ensures Misread(v, path) ==> path != []
  {
    AlikeItself(path);
    if At(v, path).Some? { AlikeIsFollowed(v, path, path); }
    if Follow(v, Names(path)).Some? {
      var other := ReadAs(v, path);
    }
    if other :| PathsAlike(other, path) && At(v, other).Some? { AlikeIsFollowed(v, other, path); }
  }

  lemma AlikeItself(path: seq<Key>)
    ensures PathsAlike(path, path)
  {
    forall i | 0 <= i < |path| ensures SpelledAlike(path[i], path[i]) {
      if path[i].Index? { DecimalIsCanonical(path[i].at); }
    }
  }

  lemma {:induction false} AlikeIsFollowed(v: Json, other: seq<Key>, path: seq<Key>)
    requires PathsAlike(other, path) && At(v, other).Some?
    ensures Follow(v, Names(path)) == At(v, other)
  {
    if path != [] {
      assert Names(path)[1..] == Names(path[1..]);
      assert SpelledAlike(other[0], path[0]);
      assert forall i :: 0 <= i < |path[1..]| ==> other[1..][i] == other[i + 1] && path[1..][i] == path[i + 1];
      match other[0]
      case Member(name) => AlikeIsFollowed(v.members[name], other[1..], path[1..]);
      case Index(at) => AlikeIsFollowed(v.items[at], other[1..], path[1..]);
    }
  }

  /** How the document takes the names of a path it can follow. */
  lemma {:induction false} ReadAs(v: Json, path: seq<Key>) returns (other: seq<Key>)
    requires Follow(v, Names(path)).Some?
    ensures PathsAlike(other, path) && At(v, other) == Follow(v, Names(path))
  {
    if path == [] { return []; }
    assert Names(path)[1..] == Names(path[1..]);
    var name := KeyName(path[0]);
    var key := if v.Array? then Index(Value(name)) else Member(name);
    var rest := ReadAs(Enter(v, name).value, path[1..]);
    other := [key] + rest;
    assert other[1..] == rest;
    forall i | 0 <= i < |path| ensures SpelledAlike(other[i], path[i]) {
      if i > 0 { assert SpelledAlike(rest[i - 1], path[1..][i - 1]); }
    }
  }

  /** Concretely: the pointer of index 0, into an object, reads its member "0". */
  lemma IndexReadsMember(x: Json, fallback: Json)
    requires x != Undefined
    ensures Resolve("rows", PrintPointer([Index(0)]), fallback, map["rows" := Object(map["0" := x])]) == x
    ensures At(Object(map["0" := x]), [Index(0)]) == None
  {
    var v, path := Object(map["0" := x]), [Index(0)];
    PrintedPointerFollows("rows", path, fallback, map["rows" := v]);
    assert Decimal(0) == "0";
    assert Names(path) == ["0"] && ["0"][1..] == [];
    assert Enter(v, "0") == Some(x);
    assert Follow(v, ["0"]) == Some(x);
  }

  lemma {:induction false} FoundIsDefined(v: Json, tokens: seq<string>)
    requires tokens != [] && Follow(v, tokens).Some?
    ensures Follow(v, tokens).value != Undefined
  {
    if |tokens| > 1 { FoundIsDefined(Enter(v, tokens[0]).value, tokens[1..]); }
  }

  /** A value that is present is found through its path. */
  lemma PresentIsFound(source: string, path: seq<Key>, fallback: Json, data: map<string, Json>)
    requires At(Start(source, data), path).Some? && At(Start(source, data), path).value != Undefined
    ensures Some(Resolve(source, PrintPointer(path), fallback, data)) == At(Start(source, data), path)
  {
    FollowsAlike(Start(source, data), path);
    PrintedPointerFollows(source, path, fallback, data);
  }

  // ----- The standard's own evaluation

  /** One step of section 4: an array takes only an index without leading zeros. */
  function StandardEnter(current: Json, token: string): Option<Json> {
    if current.Array? && !Canonical(token) then None else Enter(current, token)
  }

  function StandardFollow(current: Json, tokens: seq<string>): Option<Json> {
    if tokens == [] then Some(current)
    else
      var next := StandardEnter(current, tokens[0]);
      if next.None? then None else StandardFollow(next.value, tokens[1..])
  }

  /** The grammar of section 3 behind the leading slash. */
  predicate WellFormed(raws: seq<string>) {
    forall i :: 0 <= i < |raws| ==> ValidToken(raws[i])
  }

  function DecodeAllOnce(raws: seq<string>): (tokens: seq<string>)
    requires WellFormed(raws)
    ensures |tokens| == |raws| && forall i :: 0 <= i < |raws| ==> tokens[i] == DecodeOnce(raws[i])
  {
    seq(|raws|, i requires 0 <= i < |raws| => DecodeOnce(raws[i]))
  }

  /** Sections 3 and 4 with the binding's fallback for a pointer that is malformed or leads nowhere. */
  function StandardResolve(source: string, pointer: string, fallback: Json, data: map<string, Json>): Json {
    var start := Start(source, data);
    var raws := if pointer == "" then [] else Split(pointer[1..], '/');
    var found := if pointer == "" then Some(start)
                 else if pointer[0] != '/' || !WellFormed(raws) then None
                 else StandardFollow(start, DecodeAllOnce(raws));
    OrFallback(found, fallback)
  }

  /** An array index the code takes and the standard does not. */
  predicate LeadingZeros(token: string) {
    token != "" && AllDigits(token) && !Canonical(token)
  }

  /**
   What keeps the code with the standard: every '~' escapes something, and no token that
   can meet an array has leading zeros. The binding's own data is an object, so there the
   first token never meets one.
   */
  predicate Conforming(source: string, pointer: string) {
    pointer == "" || pointer[0] != '/' ||
    var raws := Split(pointer[1..], '/');
    && WellFormed(raws)
    && forall i :: (if source == "data" then 1 else 0) <= i < |raws| ==> !LeadingZeros(DecodePointerToken(raws[i]))
  }

  /** Tokens that never meet an array with leading zeros are followed as the standard does. */
  lemma {:induction false} FollowsStandard(v: Json, tokens: seq<string>)
    requires forall i :: (if v.Array? then 0 else 1) <= i < |tokens| ==> !LeadingZeros(tokens[i])
    ensures Follow(v, tokens) == StandardFollow(v, tokens)
  {
    if tokens != [] {
      assert forall i :: 0 <= i < |tokens[1..]| ==> tokens[1..][i] == tokens[i + 1];
      if Enter(v, tokens[0]).Some? { FollowsStandard(Enter(v, tokens[0]).value, tokens[1..]); }
    }
  }

  /** Objects inside objects, one for each token, around a value. */
  function Nest(tokens: seq<string>, v: Json): Json {
    if tokens == [] then v else Object(map[tokens[0] := Nest(tokens[1..], v)])
  }

  lemma {:induction false} NestFollows(tokens: seq<string>, v: Json, rest: seq<string>)
    requires v != Undefined
    ensures Nest(tokens, v) != Undefined
    ensures Follow(Nest(tokens, v), tokens + rest) == Follow(v, rest)
    ensures StandardFollow(Nest(tokens, v), tokens + rest) == StandardFollow(v, rest)
  {
    if tokens == [] {
      assert tokens + rest == rest;
    } else {
      NestFollows(tokens[1..], v, rest);
      assert (tokens + rest)[1..] == tokens[1..] + rest;
    }
  }

  /** An array that the code enters by a token with leading zeros and walks on to `null`. */
  function Trap(tokens: seq<string>): Json
    requires tokens != [] && LeadingZeros(tokens[0])
  {
    Array(seq(Value(tokens[0]) + 1, _ => Nest(tokens[1..], Null)))
  }

  lemma TrapDisagrees(tokens: seq<string>)
    requires tokens != [] && LeadingZeros(tokens[0])
    ensures Follow(Trap(tokens), tokens) == Some(Null) && StandardFollow(Trap(tokens), tokens) == None
  {
    NestFollows(tokens[1..], Null, []);
    assert tokens[1..] + [] == tokens[1..];
  }

  /** A value on which the code and the standard part, for a token with leading zeros at i. */
  lemma Disagree(tokens: seq<string>, i: nat) returns (v: Json)
    requires i < |tokens| && LeadingZeros(tokens[i])
    ensures v == Nest(tokens[..i], Trap(tokens[i..]))
    ensures v != Undefined && Follow(v, tokens) == Some(Null) && StandardFollow(v, tokens) == None
  {
    var front, rest := tokens[..i], tokens[i..];
    TrapDisagrees(rest);
    NestFollows(front, Trap(rest), rest);
    assert front + rest == tokens;
    v := Nest(front, Trap(rest));
  }

  /** The code evaluates a list of tokens as section 4 does on every value exactly without leading zeros. */
  lemma FollowsStandardIff(tokens: seq<string>)
    ensures (forall v :: Follow(v, tokens) == StandardFollow(v, tokens))
       <==> forall i :: 0 <= i < |tokens| ==> !LeadingZeros(tokens[i])
  {
    if forall i :: 0 <= i < |tokens| ==> !LeadingZeros(tokens[i]) {
      forall v ensures Follow(v, tokens) == StandardFollow(v, tokens) { FollowsStandard(v, tokens); }
    } else {
      var i :| 0 <= i < |tokens| && LeadingZeros(tokens[i]);
      var v := Disagree(tokens, i);
      assert Follow(v, tokens) != StandardFollow(v, tokens);
    }
  }

  lemma DecodesAlike(raws: seq<string>)
    requires WellFormed(raws)
    ensures DecodeAllOnce(raws) == DecodeAll(raws)
  {
    forall i | 0 <= i < |raws| ensures DecodeOnce(raws[i]) == DecodePointerToken(raws[i]) {
      TwoPassesDecode(raws[i]);
    }
  }

  lemma ConformingResolves(source: string, pointer: string, fallback: Json, data: map<string, Json>)
    requires Conforming(source, pointer)
    ensures Resolve(source, pointer, fallback, data) == StandardResolve(source, pointer, fallback, data)
  {
    if pointer != "" && pointer[0] == '/' {
      var raws := Split(pointer[1..], '/');
      DecodesAlike(raws);
      FollowsStandard(Start(source, data), DecodeAll(raws));
    }
  }

  /**
   The pointers resolved as sections 3 and 4 prescribe, in every document and for every
   fallback, are exactly the conforming ones.
   */
  lemma ResolvesByStandardIff(source: string, pointer: string)
    ensures (forall fallback, data ::
               Resolve(source, pointer, fallback, data) == StandardResolve(source, pointer, fallback, data))
       <==> Conforming(source, pointer)
  {
    if Conforming(source, pointer) {
      forall fallback, data
        ensures Resolve(source, pointer, fallback, data) == StandardResolve(source, pointer, fallback, data)
      {
        ConformingResolves(source, pointer, fallback, data);
      }
    } else {
      var data := Parting(source, pointer);
      assert Resolve(source, pointer, Bool(true), data) != StandardResolve(source, pointer, Bool(true), data);
    }
  }

  /** For every other pointer there is a document where the code finds `null` and the standard nothing. */
  lemma Parting(source: string, pointer: string) returns (data: map<string, Json>)
    requires !Conforming(source, pointer)
    ensures Resolve(source, pointer, Bool(true), data) == Null
    ensures StandardResolve(source, pointer, Bool(true), data) == Bool(true)
  {
    var raws := Split(pointer[1..], '/');
    var tokens := DecodeAll(raws);
    if !WellFormed(raws) {
      NestFollows(tokens, Null, []);
      assert tokens + [] == tokens;
      data := Holding(source, Nest(tokens, Null));
    } else {
      var i :| (if source == "data" then 1 else 0) <= i < |raws| && LeadingZeros(tokens[i]);
      DecodesAlike(raws);
      var v := Disagree(tokens, i);
      data := Holding(source, v);
    }
  }

  lemma Holding(source: string, v: Json) returns (data: map<string, Json>)
    requires source == "data" ==> v.Object?
    ensures Start(source, data) == v
  {
    data := if source == "data" then v.members else map[source := v];
  }

  /** Concretely: the pointer `/01` into an array reads element 1, where section 4 finds an error. */
  lemma LeadingZeroIsAccepted(items: seq<Json>, fallback: Json)
    requires |items| > 1 && items[1] != Undefined
    ensures Resolve("rows", "/01", fallback, map["rows" := Array(items)]) == items[1]
    ensures StandardResolve("rows", "/01", fallback, map["rows" := Array(items)]) == fallback
  {
    LeadingZeroIndex();
    var data, v, tokens := map["rows" := Array(items)], Array(items), ["01"];
    assert "/01"[1..] == "01";
    SplitUnbroken("01", '/');
    assert DecodeAll(tokens) == tokens;
    DecodesAlike(tokens);
    assert tokens[1..] == [];
    assert Enter(v, tokens[0]) == Some(items[1]) && StandardEnter(v, tokens[0]) == None;
    assert Follow(v, tokens) == Some(items[1]) && StandardFollow(v, tokens) == None;
    assert Start("rows", data) == v;
  }

  lemma LeadingZeroIndex()
    ensures AllDigits("01") && Value("01") == 1 && !Canonical("01") && DecodePointerToken("01") == "01"
    ensures ValidToken("01")
  {
    assert "01"[..1] == "0" && "0"[..0] == "";
    assert Value("0") == 0;
    assert EscapeToken("01") == "01";
    DecodeEscape("01");
    assert "01"[1..] == "1" && "1"[1..] == "";
  }

  // ----- Where a pointer starts

  /** Behind `data` the pointer starts at the whole data object, behind a source in it at that source. */
  lemma SourceIsStart(source: string, fallback: Json, data: map<string, Json>)
    ensures Resolve("data", "", fallback, data) == Object(data)
    ensures source != "data" && source in data && data[source] != Undefined ==>
      Resolve(source, "", fallback, data) == data[source]
  {
  }

  /** The first name behind `data` is a source, with the rest of the pointer evaluated from there. */
  lemma DataThenSource(source: string, path: seq<Key>, fallback: Json, data: map<string, Json>)
    requires source != "data" && source in data && data[source] != Undefined
    ensures Resolve("data", PrintPointer([Member(source)] + path), fallback, data)
         == Resolve(source, PrintPointer(path), fallback, data)
  {
    hide Resolve, PrintPointer;
    var whole := [Member(source)] + path;
    PrintedPointerFollows("data", whole, fallback, data);
    PrintedPointerFollows(source, path, fallback, data);
    NamesCons(Member(source), path);
    FollowCons(data, source, Names(path));
  }

  lemma {:induction false} NamesCons(key: Key, path: seq<Key>)
    ensures Names([key] + path) == [KeyName(key)] + Names(path)
  {
  }

  lemma {:induction false} FollowCons(data: map<string, Json>, source: string, names: seq<string>)
    requires source in data && data[source] != Undefined
    ensures Follow(Object(data), [source] + names) == Follow(data[source], names)
  {
    assert ([source] + names)[1..] == names;
    assert Enter(Object(data), source) == Some(data[source]);
  }

  /** A source that is not in the data gives the fallback for every pointer. */
  lemma MissingSourceFallsBack(source: string, pointer: string, fallback: Json, data: map<string, Json>)
    requires source != "data" && (source !in data || data[source] == Undefined)
    ensures Resolve(source, pointer, fallback, data) == fallback
  {
    assert Start(source, data) == Undefined;
  }
}
