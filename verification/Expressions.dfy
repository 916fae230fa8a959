// ${{ path }} expressions in stand configs: scanning strings for tokens,
// resolving dotted paths, and rewriting nested values.
module Expressions {
  import opened Strings
  import opened Wrappers

  // ---- Tokens ----

  // What lies between "${{" and "}}": anything non-empty without a brace.
  predicate IsBody(b: string) {
    b != "" && '}' !in b
  }

  function TokenText(b: string): string {
    "${{" + b + "}}"
  }

  function BeforeBrace(s: string): (r: string)
    ensures r <= s && '}' !in r
    ensures |r| < |s| ==> s[|r|] == '}'
  {
    if s == "" || s[0] == '}' then "" else [s[0]] + BeforeBrace(s[1..])
  }

  // The body of the token a string starts with, if it starts with one.
  function TokenAt(s: string): Option<string> {
    if |s| < 3 || s[..3] != "${{" then None
    else
      var b := BeforeBrace(s[3..]);
      if b != "" && |b| + 5 <= |s| && s[|b| + 4] == '}' then Some(b) else None
  }

  lemma {:induction false} BeforeBraceUnique(b: string, rest: string)
    requires '}' !in b
    ensures BeforeBrace(b + "}" + rest) == b
  {
    var s := b + "}" + rest;
    if b == "" {
    } else {
      assert s[0] == b[0] && s[1..] == b[1..] + "}" + rest;
      BeforeBraceUnique(b[1..], rest);
    }
  }

  lemma TokenStarts(b: string, rest: string)
    requires IsBody(b)
    ensures TokenAt(TokenText(b) + rest) == Some(b)
  {
    var s := TokenText(b) + rest;
    assert s[..3] == "${{";
    assert s[3..] == b + "}" + ("}" + rest);
    BeforeBraceUnique(b, "}" + rest);
    assert s[|b| + 4] == '}';
  }

  lemma TokenEnds(s: string, b: string)
    requires TokenAt(s) == Some(b)
    ensures IsBody(b) && TokenText(b) <= s
  {
    assert s[3..][|b|] == '}';
    assert TokenText(b) == s[..|b| + 5];
  }

  lemma TokenAtMeaning(s: string, b: string)
    ensures TokenAt(s) == Some(b) <==> IsBody(b) && TokenText(b) <= s
  {
    if TokenAt(s) == Some(b) { TokenEnds(s, b); }
    if IsBody(b) && TokenText(b) <= s {
      assert s == TokenText(b) + s[|TokenText(b)|..];
      TokenStarts(b, s[|TokenText(b)|..]);
    }
  }

  // The expression pattern matches at the start of s with these parts: white space
  // around a group that holds no closing brace.
  predicate RegexMatches(s: string, before: string, group: string, after: string) {
    && (forall c :: c in before ==> IsSpace(c)) && (forall c :: c in after ==> IsSpace(c))
    && IsBody(group)
    && "${{" + before + group + after + "}}" <= s
  }

  lemma {:induction false} TrimStartSkips(before: string, s: string)
    requires forall c :: c in before ==> IsSpace(c)
    ensures TrimStart(before + s) == TrimStart(s)
  {
    if before == "" {
      assert before + s == s;
    } else {
      assert (before + s)[0] == before[0] && (before + s)[1..] == before[1..] + s;
      TrimStartSkips(before[1..], s);
    }
  }

  lemma {:induction false} TrimEndSkips(s: string, after: string)
    requires forall c :: c in after ==> IsSpace(c)
    ensures TrimEnd(s + after) == TrimEnd(s)
    decreases |after|
  {
    if after == "" {
      assert s + after == s;
    } else {
      var front := after[..|after| - 1];
      assert (s + after)[|s + after| - 1] == after[|after| - 1];
      assert (s + after)[..|s + after| - 1] == s + front;
      TrimEndSkips(s, front);
    }
  }

  lemma {:induction false} TrimStartKeepsEnd(s: string, after: string)
    requires forall c :: c in after ==> IsSpace(c)
    ensures TrimEnd(TrimStart(s + after)) == TrimEnd(TrimStart(s))
  {
    if s == "" {
      assert s + after == after + "";
      TrimStartSkips(after, "");
    } else if IsSpace(s[0]) {
      assert (s + after)[0] == s[0] && (s + after)[1..] == s[1..] + after;
      TrimStartKeepsEnd(s[1..], after);
    } else {
      assert (s + after)[0] == s[0];
      TrimEndSkips(s, after);
    }
  }

  // However the lazy groups split a match, it is the same token and the trimmed
  // expression is the same.
  lemma RegexIsTokenAt(s: string, before: string, group: string, after: string)
    requires RegexMatches(s, before, group, after)
    ensures TokenAt(s).Some? && Trim(group) == Trim(TokenAt(s).value)
  {
    var b := before + group + after;
    assert '}' !in b by {
      assert !IsSpace('}');
    }
    assert TokenText(b) == "${{" + before + group + after + "}}";
    TokenAtMeaning(s, b);
    assert b == before + (group + after);
    TrimStartSkips(before, group + after);
    TrimStartKeepsEnd(group, after);
  }

  lemma TokenAtIsRegex(s: string)
    requires TokenAt(s).Some?
    ensures RegexMatches(s, "", TokenAt(s).value, "")
  {
    TokenAtMeaning(s, TokenAt(s).value);
    assert "${{" + "" + TokenAt(s).value + "" + "}}" == TokenText(TokenAt(s).value);
  }

  // ---- Segmentation ----

  datatype Segment = Char(c: char) | Token(body: string)

  function Source(g: Segment): string {
    match g
    case Char(c) => [c]
    case Token(b) => TokenText(b)
  }

  function Render(segs: seq<Segment>): string {
    if segs == [] then "" else Source(segs[0]) + Render(segs[1..])
  }

  // Leftmost, non-overlapping matches: no token is missed, and each is a match.
  predicate Leftmost(segs: seq<Segment>) {
    segs != [] ==>
      Leftmost(segs[1..]) &&
      match segs[0]
      case Char(_) => TokenAt(Render(segs)).None?
      case Token(b) => IsBody(b)
  }

  function Scan(s: string): seq<Segment> {
    if s == "" then []
    else match TokenAt(s)
      case Some(b) => [Token(b)] + Scan(s[|b| + 5..])
      case None => [Char(s[0])] + Scan(s[1..])
  }

  lemma RenderFirst(g: Segment, rest: seq<Segment>)
    ensures Render([g] + rest) == Source(g) + Render(rest)
    ensures Leftmost(rest) && (match g case Char(_) => TokenAt(Render([g] + rest)).None? case Token(b) => IsBody(b)) ==>
      Leftmost([g] + rest)
  {
    assert ([g] + rest)[1..] == rest;
  }

  lemma ScanStep(s: string) returns (g: Segment, rest: string)
    requires s != ""
    ensures Scan(s) == [g] + Scan(rest) && s == Source(g) + rest && |rest| < |s|
    ensures match g case Char(_) => TokenAt(s).None? case Token(b) => IsBody(b)
  {
    var t := TokenAt(s);
    if t.Some? {
      TokenAtMeaning(s, t.value);
      g, rest := Token(t.value), s[|t.value| + 5..];
      assert s == TokenText(t.value) + rest;
    } else {
      g, rest := Char(s[0]), s[1..];
    }
  }

  // Every string has a leftmost segmentation that rejoins to it.
  lemma {:induction false} ScanIsLeftmost(s: string)
    ensures Render(Scan(s)) == s && Leftmost(Scan(s))
    decreases |s|
  {
    if s == "" {
    } else {
      var g, rest := ScanStep(s);
      ScanIsLeftmost(rest);
      RenderFirst(g, Scan(rest));
    }
  }

  // The string a leftmost segmentation renders to starts as its first segment says.
  lemma FirstSegment(segs: seq<Segment>)
    requires segs != [] && Leftmost(segs)
    ensures Render(segs) != ""
    ensures match segs[0]
      case Char(c) => TokenAt(Render(segs)) == None && Render(segs)[0] == c && Render(segs)[1..] == Render(segs[1..])
      case Token(b) =>
        TokenAt(Render(segs)) == Some(b) && |b| + 5 <= |Render(segs)| && Render(segs)[|b| + 5..] == Render(segs[1..])
  {
    if segs[0].Token? {
      var b := segs[0].body;
      assert Render(segs)[..|b| + 5] == TokenText(b);
      TokenAtMeaning(Render(segs), b);
    }
  }

  lemma ScanToken(s: string, b: string)
    requires TokenAt(s) == Some(b) && |b| + 5 <= |s|
    ensures Scan(s) == [Token(b)] + Scan(s[|b| + 5..])
  {
  }

  lemma ScanChar(s: string)
    requires s != "" && TokenAt(s) == None
    ensures Scan(s) == [Char(s[0])] + Scan(s[1..])
  {
  }

  lemma ScanFirst(segs: seq<Segment>)
    requires segs != [] && Leftmost(segs)
    ensures Scan(Render(segs)) == [segs[0]] + Scan(Render(segs[1..]))
  {
    FirstSegment(segs);
    match segs[0] {
      case Char(_) => ScanChar(Render(segs));
      case Token(b) => ScanToken(Render(segs), b);
    }
  }

  // And only one.
  lemma {:induction false} LeftmostUnique(segs: seq<Segment>)
    requires Leftmost(segs)
    ensures Scan(Render(segs)) == segs
  {
    if segs == [] {
    } else {
      LeftmostUnique(segs[1..]);
      ScanFirst(segs);
    }
  }

  // ---- Resolving one string ----

  // The text of a trimmed expression, None when it resolves to null or undefined.
  type Resolver = string -> Option<string>

  // Replaces every token, working through the string once; the
  // error is the first match that does not resolve.
  function ResolveString(resolve: Resolver, s: string): Result<string, string> {
    if s == "" then Ok("")
    else match TokenAt(s)
      case None =>
        var rest := ResolveString(resolve, s[1..]);
        if rest.Ok? then Ok([s[0]] + rest.value) else rest
      case Some(b) =>
        var text := resolve(Trim(b));
        if text.None? then Err(TokenText(b))
        else
          var rest := ResolveString(resolve, s[|b| + 5..]);
          if rest.Ok? then Ok(text.value + rest.value) else rest
  }

  predicate Unresolved(resolve: Resolver, g: Segment) {
    g.Token? && resolve(Trim(g.body)).None?
  }

  function TextOf(resolve: Resolver, g: Segment): string {
    match g
    case Char(c) => [c]
    case Token(b) => resolve(Trim(b)).GetOr("")
  }

  function Joined(resolve: Resolver, segs: seq<Segment>): string {
    if segs == [] then "" else TextOf(resolve, segs[0]) + Joined(resolve, segs[1..])
  }

  function ResolveSegments(resolve: Resolver, segs: seq<Segment>): Result<string, string> {
    if segs == [] then Ok("")
    else if Unresolved(resolve, segs[0]) then Err(Source(segs[0]))
    else match ResolveSegments(resolve, segs[1..])
      case Ok(rest) => Ok(TextOf(resolve, segs[0]) + rest)
      case Err(e) => Err(e)
  }

  lemma ResolveFirst(resolve: Resolver, segs: seq<Segment>)
    requires segs != [] && Leftmost(segs)
    ensures ResolveString(resolve, Render(segs)) ==
      if Unresolved(resolve, segs[0]) then Err(Source(segs[0]))
      else match ResolveString(resolve, Render(segs[1..]))
        case Ok(rest) => Ok(TextOf(resolve, segs[0]) + rest)
        case Err(e) => Err(e)
  {
    FirstSegment(segs);
  }

  lemma {:induction false} ResolveBySegments(resolve: Resolver, segs: seq<Segment>)
    requires Leftmost(segs)
    ensures ResolveString(resolve, Render(segs)) == ResolveSegments(resolve, segs)
  {
    if segs == [] {
    } else {
      ResolveFirst(resolve, segs);
      ResolveBySegments(resolve, segs[1..]);
    }
  }

  ghost predicate IsFirstUnresolved(resolve: Resolver, segs: seq<Segment>, k: int) {
    && 0 <= k < |segs| && Unresolved(resolve, segs[k])
    && forall j :: 0 <= j < k ==> !Unresolved(resolve, segs[j])
  }

  lemma {:induction false} SegmentsMeaning(resolve: Resolver, segs: seq<Segment>)
    ensures match ResolveSegments(resolve, segs)
      case Ok(text) => text == Joined(resolve, segs) && forall g :: g in segs ==> !Unresolved(resolve, g)
      case Err(e) => exists k :: IsFirstUnresolved(resolve, segs, k) && e == Source(segs[k])
  {
    if segs == [] {
    } else {
      SegmentsMeaning(resolve, segs[1..]);
      assert segs == [segs[0]] + segs[1..];
      if Unresolved(resolve, segs[0]) {
        assert IsFirstUnresolved(resolve, segs, 0);
      } else if ResolveSegments(resolve, segs[1..]).Err? {
        var e := ResolveSegments(resolve, segs[1..]).error;
        var k :| IsFirstUnresolved(resolve, segs[1..], k) && e == Source(segs[1..][k]);
        LaterUnresolved(resolve, segs, k);
      }
    }
  }

  lemma LaterUnresolved(resolve: Resolver, segs: seq<Segment>, k: int)
    requires segs != [] && !Unresolved(resolve, segs[0]) && IsFirstUnresolved(resolve, segs[1..], k)
    ensures IsFirstUnresolved(resolve, segs, k + 1) && segs[1..][k] == segs[k + 1]
  {
    forall j | 0 <= j < k + 1 ensures !Unresolved(resolve, segs[j]) {
      if j > 0 { assert segs[j] == segs[1..][j - 1]; }
    }
  }

  // Over the segmentation of the original string: resolution fails exactly when
  // some token does not resolve, naming the first; otherwise the result is the
  // literal characters joined with the resolved texts, which are never scanned again.
  lemma ResolveStringMeaning(resolve: Resolver, s: string, segs: seq<Segment>)
    requires Leftmost(segs) && Render(segs) == s
    ensures match ResolveString(resolve, s)
      case Ok(text) => text == Joined(resolve, segs) && forall g :: g in segs ==> !Unresolved(resolve, g)
      case Err(e) => exists k :: IsFirstUnresolved(resolve, segs, k) && e == Source(segs[k])
  {
    ResolveBySegments(resolve, segs);
    SegmentsMeaning(resolve, segs);
  }

  // ---- Paths ----

  datatype Field = Field(key: string, value: Value)

  datatype Value =
    | Undefined
    | Null
    | Bool(b: bool)
    | Num(n: int)
    | Str(s: string)
    | Arr(items: seq<Value>)
    | Obj(fields: seq<Field>)

  function FieldOf(fields: seq<Field>, key: string): Value {
    if fields == [] then Undefined
    else if fields[0].key == key then fields[0].value
    else FieldOf(fields[1..], key)
  }

  function ItemOf(items: seq<Value>, key: string, i: nat): Value
    requires i <= |items|
    decreases |items| - i
  {
    if i == |items| then Undefined
    else if key == Decimal(i) then items[i]
    else ItemOf(items, key, i + 1)
  }

  // The value under a key, if present, on own properties; anything but an object
  // or array has none.
  function Member(v: Value, key: string): Value {
    match v
    case Obj(fields) => FieldOf(fields, key)
    case Arr(items) => if key == "length" then Num(|items|) else ItemOf(items, key, 0)
    case _ => Undefined
  }

  function Descend(v: Value, keys: seq<string>): Value
    decreases |keys|
  {
    if keys == [] then v else Descend(Member(v, keys[0]), keys[1..])
  }

  // The resolver of a context; toText is String() on values.
  function ContextResolver(ctx: Value, toText: Value -> string): Resolver {
    (path: string) =>
      var v := Descend(ctx, Split(path, '.'));
      if v.Undefined? || v.Null? then None else Some(toText(v))
  }

  // An object or array has this key, with this value. The first field of a name
  // counts; an array has its length and its indices.
  ghost predicate HasKey(v: Value, key: string, u: Value) {
    match v
    case Obj(fields) => HasField(fields, key, u)
    case Arr(items) =>
      || (key == "length" && u == Num(|items|))
      || (key != "length" && exists i: nat :: i < |items| && key == Decimal(i) && u == items[i])
    case _ => false
  }

  ghost predicate HasField(fields: seq<Field>, key: string, u: Value) {
    exists i :: 0 <= i < |fields| && fields[i] == Field(key, u) && NoFieldBefore(fields, key, i)
  }

  ghost predicate NoFieldBefore(fields: seq<Field>, key: string, i: int) {
    forall j :: 0 <= j < i && j < |fields| ==> fields[j].key != key
  }

  lemma {:induction false} FieldExact(fields: seq<Field>, key: string, u: Value)
    ensures HasField(fields, key, u) ==> FieldOf(fields, key) == u
    ensures FieldOf(fields, key) == u && !u.Undefined? ==> HasField(fields, key, u)
  {
    if fields == [] {
    } else {
      FieldExact(fields[1..], key, u);
      if fields[0].key == key {
        assert NoFieldBefore(fields, key, 0);
      } else {
        FieldSkips(fields, key, u);
      }
    }
  }

  lemma FieldSkips(fields: seq<Field>, key: string, u: Value)
    requires fields != [] && fields[0].key != key
    ensures HasField(fields, key, u) <==> HasField(fields[1..], key, u)
  {
    var rest := fields[1..];
    if HasField(fields, key, u) {
      var i :| 0 <= i < |fields| && fields[i] == Field(key, u) && NoFieldBefore(fields, key, i);
      assert rest[i - 1] == Field(key, u) && NoFieldBefore(rest, key, i - 1);
    }
    if HasField(rest, key, u) {
      var i :| 0 <= i < |rest| && rest[i] == Field(key, u) && NoFieldBefore(rest, key, i);
      assert fields[i + 1] == Field(key, u) && NoFieldBefore(fields, key, i + 1);
    }
  }

  lemma {:induction false} ItemExact(items: seq<Value>, key: string, from: nat)
    requires from <= |items|
    ensures match ItemOf(items, key, from)
      case Undefined => forall i: nat :: from <= i < |items| && key == Decimal(i) ==> items[i] == Undefined
      case u => exists i: nat :: from <= i < |items| && key == Decimal(i) && u == items[i]
    ensures forall i: nat :: from <= i < |items| && key == Decimal(i) ==> ItemOf(items, key, from) == items[i]
    decreases |items| - from
  {
    if from == |items| {
    } else {
      ItemExact(items, key, from + 1);
      forall i: nat | from <= i < |items| && key == Decimal(i) ensures ItemOf(items, key, from) == items[i] {
        if key == Decimal(from) { DecimalInjective(i, from); }
      }
    }
  }

  lemma MemberExact(v: Value, key: string, u: Value)
    ensures HasKey(v, key, u) ==> Member(v, key) == u
    ensures Member(v, key) == u && !u.Undefined? ==> HasKey(v, key, u)
  {
    match v {
      case Obj(fields) => FieldExact(fields, key, u);
      case Arr(items) => ItemExact(items, key, 0);
      case _ =>
    }
  }

  // Every step finds its key, and the walk ends at this value.
  ghost predicate Walk(v: Value, keys: seq<string>, u: Value)
    decreases |keys|
  {
    if keys == [] then u == v else exists w :: HasKey(v, keys[0], w) && Walk(w, keys[1..], u)
  }

  lemma {:induction false} UndefinedStays(keys: seq<string>)
    ensures Descend(Undefined, keys) == Undefined
    decreases |keys|
  {
    if keys == [] {
    } else {
      UndefinedStays(keys[1..]);
    }
  }

  lemma {:induction false} DescendExact(v: Value, keys: seq<string>, u: Value)
    requires !u.Undefined?
    ensures Descend(v, keys) == u <==> Walk(v, keys, u)
    decreases |keys|
  {
    if keys == [] {
    } else {
      var m := Member(v, keys[0]);
      UndefinedStays(keys[1..]);
      DescendExact(m, keys[1..], u);
      MemberExact(v, keys[0], m);
      if Walk(v, keys, u) {
        var w :| HasKey(v, keys[0], w) && Walk(w, keys[1..], u);
        MemberExact(v, keys[0], w);
      }
    }
  }

  // What a path stands for: the value the walk along its dotted parts ends at.
  ghost predicate StandsFor(ctx: Value, path: string, u: Value) {
    !u.Undefined? && !u.Null? && Walk(ctx, Split(path, '.'), u)
  }

  // A path resolves if and only if every step finds its key in an object or array
  // and the last value is neither null nor undefined; to the text of that value.
  lemma PathResolves(ctx: Value, toText: Value -> string, path: string)
    ensures match ContextResolver(ctx, toText)(path)
      case Some(text) => exists u :: StandsFor(ctx, path, u) && text == toText(u)
      case None => forall u :: !StandsFor(ctx, path, u)
  {
    var v := Descend(ctx, Split(path, '.'));
    if !v.Undefined? { DescendExact(ctx, Split(path, '.'), v); }
    forall u | StandsFor(ctx, path, u) ensures u == v {
      DescendExact(ctx, Split(path, '.'), u);
    }
    if ContextResolver(ctx, toText)(path).Some? { assert StandsFor(ctx, path, v); }
  }

  // ---- Resolving nested values ----

  function ResolveValue(resolve: Resolver, v: Value): Result<Value, string>
    decreases v
  {
    match v
    case Str(s) =>
      (match ResolveString(resolve, s) case Ok(text) => Ok(Str(text)) case Err(e) => Err(e))
    case Arr(items) =>
      (match ResolveItems(resolve, items) case Ok(resolved) => Ok(Arr(resolved)) case Err(e) => Err(e))
    case Obj(fields) =>
      (match ResolveFields(resolve, fields) case Ok(resolved) => Ok(Obj(resolved)) case Err(e) => Err(e))
    case _ => Ok(v)
  }

  function ResolveItems(resolve: Resolver, items: seq<Value>): Result<seq<Value>, string>
    decreases items
  {
    if items == [] then Ok([])
    else match ResolveValue(resolve, items[0])
      case Err(e) => Err(e)
      case Ok(first) =>
        match ResolveItems(resolve, items[1..])
        case Err(e) => Err(e)
        case Ok(rest) => Ok([first] + rest)
  }

  function ResolveFields(resolve: Resolver, fields: seq<Field>): Result<seq<Field>, string>
    decreases fields
  {
    if fields == [] then Ok([])
    else match ResolveValue(resolve, fields[0].value)
      case Err(e) => Err(e)
      case Ok(first) =>
        match ResolveFields(resolve, fields[1..])
        case Err(e) => Err(e)
        case Ok(rest) => Ok([Field(fields[0].key, first)] + rest)
  }

  // The strings of a value, in order, and the value with its strings blanked.
  function StringsOf(v: Value): seq<string>
    decreases v
  {
    match v
    case Str(s) => [s]
    case Arr(items) => ItemStrings(items)
    case Obj(fields) => FieldStrings(fields)
    case _ => []
  }

  function ItemStrings(items: seq<Value>): seq<string>
    decreases items
  {
    if items == [] then [] else StringsOf(items[0]) + ItemStrings(items[1..])
  }

  function FieldStrings(fields: seq<Field>): seq<string>
    decreases fields
  {
    if fields == [] then [] else StringsOf(fields[0].value) + FieldStrings(fields[1..])
  }

  function Skeleton(v: Value): Value
    decreases v
  {
    match v
    case Str(_) => Str("")
    case Arr(items) => Arr(ItemSkeletons(items))
    case Obj(fields) => Obj(FieldSkeletons(fields))
    case _ => v
  }

  function ItemSkeletons(items: seq<Value>): seq<Value>
    decreases items
  {
    if items == [] then [] else [Skeleton(items[0])] + ItemSkeletons(items[1..])
  }

  function FieldSkeletons(fields: seq<Field>): seq<Field>
    decreases fields
  {
    if fields == [] then [] else [Field(fields[0].key, Skeleton(fields[0].value))] + FieldSkeletons(fields[1..])
  }

  // A fallible step over a list, stopping at the first failure.
  function Collect(step: string -> Result<string, string>, ss: seq<string>): Result<seq<string>, string> {
    if ss == [] then Ok([])
    else match step(ss[0])
      case Err(e) => Err(e)
      case Ok(first) =>
        match Collect(step, ss[1..])
        case Err(e) => Err(e)
        case Ok(rest) => Ok([first] + rest)
  }

  function ResolveAll(resolve: Resolver, ss: seq<string>): Result<seq<string>, string> {
    Collect(s => ResolveString(resolve, s), ss)
  }

  function Both(a: Result<seq<string>, string>, b: Result<seq<string>, string>): Result<seq<string>, string> {
    if a.Err? then a else if b.Err? then b else Ok(a.value + b.value)
  }

  lemma {:induction false} CollectConcat(step: string -> Result<string, string>, a: seq<string>, b: seq<string>)
    ensures Collect(step, a + b) == Both(Collect(step, a), Collect(step, b))
  {
    if a == [] {
      assert a + b == b;
      if Collect(step, b).Ok? { assert [] + Collect(step, b).value == Collect(step, b).value; }
    } else {
      assert (a + b)[0] == a[0] && (a + b)[1..] == a[1..] + b;
      CollectConcat(step, a[1..], b);
      var rest, last := Collect(step, a[1..]), Collect(step, b);
      if step(a[0]).Ok? && rest.Ok? && last.Ok? {
        assert [step(a[0]).value] + (rest.value + last.value) == ([step(a[0]).value] + rest.value) + last.value;
      }
    }
  }

  // The two halves of a list resolve to the two halves of the result.
  lemma ResolveAllConcat(resolve: Resolver, a: seq<string>, b: seq<string>)
    ensures ResolveAll(resolve, a + b) == Both(ResolveAll(resolve, a), ResolveAll(resolve, b))
  {
    CollectConcat(s => ResolveString(resolve, s), a, b);
  }

  lemma CollectOne(step: string -> Result<string, string>, s: string)
    ensures Collect(step, [s]) == match step(s) case Ok(text) => Ok([text]) case Err(e) => Err(e)
  {
    assert [s][1..] == [];
    assert Collect(step, []) == Ok([]);
    if step(s).Ok? { assert [step(s).value] + [] == [step(s).value]; }
  }

  // Same shape and keys, same non-string leaves, and the strings are those
  // resolved; or the same failure.
  ghost predicate Agrees(r: Result<Value, string>, skeleton: Value, strings: Result<seq<string>, string>) {
    match r
    case Ok(v) => Skeleton(v) == skeleton && strings == Ok(StringsOf(v))
    case Err(e) => strings == Err(e)
  }

  lemma {:induction false} ResolveValueAgrees(resolve: Resolver, v: Value)
    ensures Agrees(ResolveValue(resolve, v), Skeleton(v), ResolveAll(resolve, StringsOf(v)))
    decreases v
  {
    match v {
      case Str(s) =>
        CollectOne(x => ResolveString(resolve, x), s);
      case Arr(items) =>
        ResolveItemsAgree(resolve, items);
      case Obj(fields) =>
        ResolveFieldsAgree(resolve, fields);
      case _ =>
    }
  }

  lemma {:induction false} ResolveItemsAgree(resolve: Resolver, items: seq<Value>)
    ensures match ResolveItems(resolve, items)
      case Ok(r) =>
        ItemSkeletons(r) == ItemSkeletons(items) && ResolveAll(resolve, ItemStrings(items)) == Ok(ItemStrings(r))
      case Err(e) => ResolveAll(resolve, ItemStrings(items)) == Err(e)
    decreases items
  {
    if items == [] {
    } else {
      ResolveValueAgrees(resolve, items[0]);
      ResolveItemsAgree(resolve, items[1..]);
      ResolveAllConcat(resolve, StringsOf(items[0]), ItemStrings(items[1..]));
    }
  }

  lemma {:induction false} ResolveFieldsAgree(resolve: Resolver, fields: seq<Field>)
    ensures match ResolveFields(resolve, fields)
      case Ok(r) =>
        FieldSkeletons(r) == FieldSkeletons(fields) && ResolveAll(resolve, FieldStrings(fields)) == Ok(FieldStrings(r))
      case Err(e) => ResolveAll(resolve, FieldStrings(fields)) == Err(e)
    decreases fields
  {
    if fields == [] {
    } else {
      ResolveValueAgrees(resolve, fields[0].value);
      ResolveFieldsAgree(resolve, fields[1..]);
      ResolveAllConcat(resolve, StringsOf(fields[0].value), FieldStrings(fields[1..]));
    }
  }

  // Some string holds a token that does not resolve.
  ghost predicate HasUnresolved(resolve: Resolver, ss: seq<string>) {
    exists s, g :: s in ss && g in Scan(s) && Unresolved(resolve, g)
  }

  ghost predicate IsFirstFailure(step: string -> Result<string, string>, ss: seq<string>, i: int) {
    0 <= i < |ss| && step(ss[i]).Err? && forall j :: 0 <= j < i ==> step(ss[j]).Ok?
  }

  // A list fails exactly when one of its strings does, with the error of the first.
  lemma {:induction false} CollectFails(step: string -> Result<string, string>, ss: seq<string>)
    ensures match Collect(step, ss)
      case Ok(_) => forall s :: s in ss ==> step(s).Ok?
      case Err(e) => exists i :: IsFirstFailure(step, ss, i) && step(ss[i]) == Err(e)
  {
    if ss == [] {
    } else {
      CollectFails(step, ss[1..]);
      assert ss == [ss[0]] + ss[1..];
      if step(ss[0]).Err? {
        assert IsFirstFailure(step, ss, 0);
      } else if Collect(step, ss[1..]).Err? {
        var i :| IsFirstFailure(step, ss[1..], i) && step(ss[1..][i]) == Err(Collect(step, ss[1..]).error);
        LaterFailure(step, ss, i);
      }
    }
  }

  lemma LaterFailure(step: string -> Result<string, string>, ss: seq<string>, i: int)
    requires ss != [] && step(ss[0]).Ok? && IsFirstFailure(step, ss[1..], i)
    ensures IsFirstFailure(step, ss, i + 1) && ss[1..][i] == ss[i + 1]
  {
    forall j | 0 <= j < i + 1 ensures step(ss[j]).Ok? {
      if j > 0 { assert ss[j] == ss[1..][j - 1]; }
    }
  }

  // The error of a list is that of the first unresolved token of the first string
  // that has one.
  ghost predicate IsFirstError(resolve: Resolver, ss: seq<string>, e: string) {
    exists i, k :: FailsAt(resolve, ss, i, k) && e == Source(Scan(ss[i])[k])
  }

  ghost predicate FailsAt(resolve: Resolver, ss: seq<string>, i: int, k: int) {
    && 0 <= i < |ss| && IsFirstUnresolved(resolve, Scan(ss[i]), k)
    && forall j :: 0 <= j < i ==> ResolveString(resolve, ss[j]).Ok?
  }

  lemma ResolveAllFirst(resolve: Resolver, ss: seq<string>)
    ensures ResolveAll(resolve, ss).Err? ==> IsFirstError(resolve, ss, ResolveAll(resolve, ss).error)
  {
    var step := s => ResolveString(resolve, s);
    CollectFails(step, ss);
    if ResolveAll(resolve, ss).Err? {
      var i :| IsFirstFailure(step, ss, i) && step(ss[i]) == Err(ResolveAll(resolve, ss).error);
      ScanIsLeftmost(ss[i]);
      ResolveStringMeaning(resolve, ss[i], Scan(ss[i]));
      var k :| IsFirstUnresolved(resolve, Scan(ss[i]), k) && ResolveAll(resolve, ss).error == Source(Scan(ss[i])[k]);
      assert FailsAt(resolve, ss, i, k);
    }
  }

  lemma ResolveAllFails(resolve: Resolver, ss: seq<string>)
    ensures ResolveAll(resolve, ss).Err? <==> HasUnresolved(resolve, ss)
  {
    var step := s => ResolveString(resolve, s);
    CollectFails(step, ss);
    forall s ensures step(s).Err? <==> exists g :: g in Scan(s) && Unresolved(resolve, g) {
      ScanIsLeftmost(s);
      ResolveStringMeaning(resolve, s, Scan(s));
      if step(s).Err? {
        var k :| IsFirstUnresolved(resolve, Scan(s), k);
        assert Scan(s)[k] in Scan(s);
      }
    }
    if ResolveAll(resolve, ss).Err? {
      var i :| IsFirstFailure(step, ss, i);
      assert ss[i] in ss;
    }
  }

  // On any nested value, resolution fails exactly when some token of some string
  // does not resolve, naming the first; otherwise it keeps list lengths, map keys and every
  // non-string leaf, and replaces each string by its own resolution.
  lemma ResolveValueMeaning(resolve: Resolver, v: Value)
    ensures ResolveValue(resolve, v).Err? <==> HasUnresolved(resolve, StringsOf(v))
    ensures ResolveValue(resolve, v).Err? ==> IsFirstError(resolve, StringsOf(v), ResolveValue(resolve, v).error)
    ensures ResolveValue(resolve, v).Ok? ==>
      Skeleton(ResolveValue(resolve, v).value) == Skeleton(v) &&
      ResolveAll(resolve, StringsOf(v)) == Ok(StringsOf(ResolveValue(resolve, v).value))
  {
    ResolveValueAgrees(resolve, v);
    ResolveAllFails(resolve, StringsOf(v));
    ResolveAllFirst(resolve, StringsOf(v));
  }

  // Some string holds a token whose path stands for nothing.
  ghost predicate HasDanglingPath(ctx: Value, ss: seq<string>) {
    exists s, b :: s in ss && Token(b) in Scan(s) && IsDangling(ctx, Trim(b))
  }

  ghost predicate IsDangling(ctx: Value, path: string) {
    forall u :: !StandsFor(ctx, path, u)
  }

  lemma DanglingExact(ctx: Value, toText: Value -> string, g: Segment)
    ensures Unresolved(ContextResolver(ctx, toText), g) <==> g.Token? && IsDangling(ctx, Trim(g.body))
  {
    if g.Token? {
      PathResolves(ctx, toText, Trim(g.body));
    }
  }

  // resolveExpressions against a context: it fails exactly when some token's path
  // stands for nothing; otherwise only strings change, each to its resolution.
  lemma ResolveExpressionsMeaning(ctx: Value, toText: Value -> string, v: Value)
    ensures var r := ResolveValue(ContextResolver(ctx, toText), v);
      && (r.Err? <==> HasDanglingPath(ctx, StringsOf(v)))
      && (r.Ok? ==> Skeleton(r.value) == Skeleton(v) &&
                    ResolveAll(ContextResolver(ctx, toText), StringsOf(v)) == Ok(StringsOf(r.value)))
  {
    var resolve := ContextResolver(ctx, toText);
    ResolveValueMeaning(resolve, v);
    forall g ensures Unresolved(resolve, g) <==> g.Token? && IsDangling(ctx, Trim(g.body)) {
      DanglingExact(ctx, toText, g);
    }
    if HasUnresolved(resolve, StringsOf(v)) {
      var s, g :| s in StringsOf(v) && g in Scan(s) && Unresolved(resolve, g);
      assert g == Token(g.body);
    }
  }

  // From text to text: a token, with white space around its path, stands for the text
  // of the value its path leads to; and literal text before it is kept.
  lemma TokenResolves(ctx: Value, toText: Value -> string, before: string, path: string, after: string, rest: string,
                      u: Value)
    requires AllSpace(before) && AllSpace(after) && IsTrimmed(path) && path != "" && '}' !in path
    requires StandsFor(ctx, path, u)
    ensures var resolve := ContextResolver(ctx, toText);
      ResolveString(resolve, "${{" + before + path + after + "}}" + rest) ==
      match ResolveString(resolve, rest)
      case Ok(text) => Ok(toText(u) + text)
      case Err(e) => Err(e)
  {
    var b := before + path + after;
    assert '}' !in b by { assert !IsSpace('}'); }
    var s := "${{" + before + path + after + "}}" + rest;
    assert s == TokenText(b) + rest;
    TokenStarts(b, rest);
    assert s[|b| + 5..] == rest;
    TrimAround(before, path, after);
    PathResolves(ctx, toText, path);
    TextIsUnique(ctx, path);
    ResolveToken(ContextResolver(ctx, toText), s, b, rest);
  }

  lemma TrimAround(before: string, path: string, after: string)
    requires AllSpace(before) && AllSpace(after) && IsTrimmed(path)
    ensures Trim(before + path + after) == path
  {
    assert before + path + after == before + (path + after);
    TrimStartSkips(before, path + after);
    TrimStartKeepsEnd(path, after);
    TrimExact(path);
  }

  lemma TextIsUnique(ctx: Value, path: string)
    ensures forall u, v :: StandsFor(ctx, path, u) && StandsFor(ctx, path, v) ==> u == v
  {
    forall u, v | StandsFor(ctx, path, u) && StandsFor(ctx, path, v) ensures u == v {
      DescendExact(ctx, Split(path, '.'), u);
      DescendExact(ctx, Split(path, '.'), v);
    }
  }

  lemma ResolveToken(resolve: Resolver, s: string, b: string, rest: string)
    requires TokenAt(s) == Some(b) && |b| + 5 <= |s| && s[|b| + 5..] == rest && resolve(Trim(b)).Some?
    ensures ResolveString(resolve, s) ==
      match ResolveString(resolve, rest)
      case Ok(text) => Ok(resolve(Trim(b)).value + text)
      case Err(e) => Err(e)
  {
  }

  // Text that starts with no token is kept, character by character.
  lemma LiteralIsKept(resolve: Resolver, s: string)
    requires s != "" && TokenAt(s) == None
    ensures ResolveString(resolve, s) ==
      match ResolveString(resolve, s[1..])
      case Ok(text) => Ok([s[0]] + text)
      case Err(e) => Err(e)
  {
  }
}
