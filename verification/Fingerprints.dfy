/** Fingerprint dimensions and their length-prefixed key (`dimensionKey` in `internal/detection/catalog.go`). */
module Fingerprints {
  import opened Common
  import opened Ordering

  datatype Dimension = Dimension(name: string, value: string)

  predicate DimensionBefore(a: Dimension, b: Dimension) {
    if a.name != b.name then Less(a.name, b.name) else Less(a.value, b.value)
  }

  lemma DimensionBeforeIsStrictWeak()
    ensures StrictWeak(DimensionBefore)
  {
    LessIsStrictTotal();
  }

  function Digit(n: nat): char
    requires n < 10
  {
    ('0' as int + n) as char
  }

  /** `%d` of a length. */
  function Decimal(n: nat): string {
    if n < 10 then [Digit(n)] else Decimal(n / 10) + [Digit(n % 10)]
  }

  function Field(s: string): string {
    Decimal(|s|) + ":" + s
  }

  function DimensionKey(dimensions: seq<Dimension>): string {
    if dimensions == [] then ""
    else Field(dimensions[0].name) + (Field(dimensions[0].value) + DimensionKey(dimensions[1..]))
  }

  // ---------- the key is uniquely decodable ----------

  function Value(s: string): int {
    if s == "" then 0 else 10 * Value(s[..|s| - 1]) + (s[|s| - 1] as int - '0' as int)
  }

  lemma {:induction false} DecimalSpec(n: nat)
    ensures Value(Decimal(n)) == n && ':' !in Decimal(n)
  {
    if n >= 10 {
      DecimalSpec(n / 10);
      assert Decimal(n)[..|Decimal(n)| - 1] == Decimal(n / 10);
    } else {
      assert Decimal(n)[..0] == "";
    }
  }

  /** A separator that occurs in neither prefix splits a string in one way. */
  lemma SplitOnce(p: string, x: string, q: string, y: string, separator: char)
    requires separator !in p && separator !in q
    requires p + [separator] + x == q + [separator] + y
    ensures p == q && x == y
  {
    var s := p + [separator] + x;
    assert s[|p|] == separator && s[|q|] == separator;
    forall k | 0 <= k < |p|
      ensures s[k] != separator
    {
      assert s[k] == p[k] && p[k] in p;
    }
    forall k | 0 <= k < |q|
      ensures s[k] != separator
    {
      assert s[k] == q[k] && q[k] in q;
    }
    assert |p| == |q|;
    assert p == s[..|p|] == q && x == s[|p| + 1..] == y;
  }

  lemma FieldsSplit(s: string, x: string, t: string, y: string)
    requires Field(s) + x == Field(t) + y
    ensures s == t && x == y
  {
    DecimalSpec(|s|);
    DecimalSpec(|t|);
    assert Field(s) + x == Decimal(|s|) + [':'] + (s + x);
    assert Field(t) + y == Decimal(|t|) + [':'] + (t + y);
    SplitOnce(Decimal(|s|), s + x, Decimal(|t|), t + y, ':');
    assert s == (s + x)[..|s|] && t == (t + y)[..|t|];
    assert x == (s + x)[|s|..] && y == (t + y)[|t|..];
  }

  lemma {:induction false} DimensionKeyInjective(a: seq<Dimension>, b: seq<Dimension>)
    requires DimensionKey(a) == DimensionKey(b)
    ensures a == b
  {
    if a != [] && b != [] {
      FieldsSplit(a[0].name, Field(a[0].value) + DimensionKey(a[1..]), b[0].name, Field(b[0].value) + DimensionKey(b[1..]));
      FieldsSplit(a[0].value, DimensionKey(a[1..]), b[0].value, DimensionKey(b[1..]));
      DimensionKeyInjective(a[1..], b[1..]);
      assert a == [a[0]] + a[1..] && b == [b[0]] + b[1..];
    }
  }

  // ---------- the key of a match ----------

  const NUL := 0 as char

  /** What `validateMatch` demands of a fingerprint, before it sorts it. */
  predicate ValidFingerprint(x: seq<Dimension>) {
    x != [] && forall k :: 0 <= k < |x| ==> x[k].name != "" && x[k].value != ""
  }

  /** `detectorID + "\x00" + dimensionKey(fingerprint)`. */
  function MatchKey(detector: string, fingerprint: seq<Dimension>): string {
    detector + [NUL] + DimensionKey(fingerprint)
  }

  // ---------- fields in a row ----------

  function Fields(fields: seq<string>): string {
    if fields == [] then "" else Field(fields[0]) + Fields(fields[1..])
  }

  function Flat(dimensions: seq<Dimension>): seq<string> {
    if dimensions == [] then [] else [dimensions[0].name, dimensions[0].value] + Flat(dimensions[1..])
  }

  function Paired(fields: seq<string>): seq<Dimension>
    requires |fields| % 2 == 0
  {
    if fields == [] then [] else [Dimension(fields[0], fields[1])] + Paired(fields[2..])
  }

  lemma {:induction false} KeyOfFlat(dimensions: seq<Dimension>)
    ensures DimensionKey(dimensions) == Fields(Flat(dimensions)) && |Flat(dimensions)| % 2 == 0
  {
    if dimensions != [] {
      KeyOfFlat(dimensions[1..]);
      var rest := Flat(dimensions[1..]);
      assert Flat(dimensions)[1..] == [dimensions[0].value] + rest;
      assert Flat(dimensions)[1..][1..] == rest;
    }
  }

  predicate Full(fields: seq<string>) {
    forall k :: 0 <= k < |fields| ==> fields[k] != ""
  }

  lemma {:induction false} FlatIsFull(x: seq<Dimension>)
    requires forall k :: 0 <= k < |x| ==> x[k].name != "" && x[k].value != ""
    ensures Full(Flat(x))
  {
    if x != [] {
      FlatIsFull(x[1..]);
    }
  }

  lemma {:induction false} PairedIsValid(fields: seq<string>)
    requires |fields| % 2 == 0 && Full(fields)
    ensures forall k :: 0 <= k < |Paired(fields)| ==> Paired(fields)[k].name != "" && Paired(fields)[k].value != ""
    ensures fields != [] ==> Paired(fields) != []
  {
    if fields != [] {
      PairedIsValid(fields[2..]);
    }
  }

  lemma {:induction false} KeyOfPaired(fields: seq<string>)
    requires |fields| % 2 == 0
    ensures DimensionKey(Paired(fields)) == Fields(fields)
  {
    if fields != [] {
      KeyOfPaired(fields[2..]);
      assert Paired(fields)[1..] == Paired(fields[2..]);
      assert fields[1..][1..] == fields[2..];
    }
  }

  lemma {:induction false} FieldsInjective(a: seq<string>, b: seq<string>)
    requires Fields(a) == Fields(b)
    ensures a == b
  {
    if a != [] && b != [] {
      FieldsSplit(a[0], Fields(a[1..]), b[0], Fields(b[1..]));
      FieldsInjective(a[1..], b[1..]);
      assert a == [a[0]] + a[1..] && b == [b[0]] + b[1..];
    }
  }

  // ---------- text that breaks off inside a field ----------

  function ColonAt(s: string): nat {
    if s == "" || s[0] == ':' then 0 else 1 + ColonAt(s[1..])
  }

  /** The length announced by the prefix of a field, if the text begins with one as `%d` writes it. */
  function Announced(s: string): Option<nat> {
    var c := ColonAt(s);
    if c >= |s| then None
    else
      var n := Value(s[..c]);
      if n >= 0 && Decimal(n) == s[..c] then Some(n) else None
  }

  /**
   * Reading non-empty fields from the start of a name, or of a value if `value`, the text ends inside the
   * body of a field, or right behind a value.
   */
  predicate BreaksOff(s: string, value: bool)
    decreases |s|
  {
    var n := Announced(s);
    if n.None? || n.value == 0 || ColonAt(s) >= |s| then false
    else
      var body := s[ColonAt(s) + 1..];
      if |body| < n.value then true
      else if |body| == n.value then value
      else BreaksOff(body[n.value..], !value)
  }

  lemma {:induction false} ColonAfter(p: string, x: string)
    requires ':' !in p
    ensures ColonAt(p + [':'] + x) == |p|
  {
    var s := p + [':'] + x;
    if p != "" {
      ColonAfter(p[1..], x);
      assert s[1..] == p[1..] + [':'] + x;
      assert p[0] in p;
    }
  }

  lemma {:induction false} ColonIsColon(s: string)
    ensures ColonAt(s) < |s| ==> s[ColonAt(s)] == ':'
    ensures ColonAt(s) <= |s|
  {
    if s != "" && s[0] != ':' {
      ColonIsColon(s[1..]);
    }
  }

  lemma AnnouncedBy(n: nat, body: string)
    ensures var s := Decimal(n) + ":" + body;
            && Announced(s) == Some(n) && ColonAt(s) == |Decimal(n)| && s[ColonAt(s) + 1..] == body
  {
    DecimalSpec(n);
    ColonAfter(Decimal(n), body);
    var s := Decimal(n) + ":" + body;
    assert s == Decimal(n) + [':'] + body && s[..|Decimal(n)|] == Decimal(n);
  }

  lemma {:induction false} DecimalHasNoNul(n: nat)
    ensures NUL !in Decimal(n)
  {
    if n >= 10 {
      DecimalHasNoNul(n / 10);
    }
  }

  /** The text ends in NUL inside a field: what is left of the field after its announced length. */
  lemma NulInsideBody(q: string, rest: string, field: string, more: string)
    requires q != "" && q[|q| - 1] == NUL && q + rest == Field(field) + more
    ensures |q| > |Decimal(|field|)| + 1
    ensures q == Decimal(|field|) + ":" + q[|Decimal(|field|)| + 1..]
    ensures q[|Decimal(|field|)| + 1..] + rest == field + more
  {
    var head := Decimal(|field|) + ":";
    var all := q + rest;
    DecimalHasNoNul(|field|);
    assert all == head + (field + more);
    assert all[|q| - 1] == NUL && NUL !in head;
    assert forall i :: 0 <= i < |head| ==> all[i] == head[i] && head[i] in head;
    hide Field, Decimal;
    assert all[..|head|] == head == q[..|head|];
    assert all[|head|..] == field + more == q[|head|..] + rest;
  }

  /** How a text that announces n characters is read on. */
  lemma BreaksOffFrom(n: nat, body: string, value: bool)
    ensures BreaksOff(Decimal(n) + ":" + body, value) ==
            if n == 0 then false
            else if |body| < n then true
            else if |body| == n then value
            else BreaksOff(body[n..], !value)
  {
    AnnouncedBy(n, body);
    hide Announced, ColonAt, Decimal;
  }

  /** If fields complete a text that ends in NUL to fields, the text breaks off. */
  lemma {:induction false} CompletedBreaksOff(q: string, value: bool, all: seq<string>, rest: seq<string>)
    requires q != "" && q[|q| - 1] == NUL && q + Fields(rest) == Fields(all)
    requires |rest| % 2 == 0 && (|all| % 2 == 1 <==> value) && Full(all)
    ensures BreaksOff(q, value)
    decreases |q|
  {
    hide *;
    var field, onward := SomeField(q, all, rest);
    var n, more, left := |field|, Fields(onward), Fields(rest);
    NulInsideBody(q, left, field, more);
    var body := q[|Decimal(n)| + 1..];
    BreaksOffFrom(n, body, value);
    BodyAndMore(body, left, field, more);
    if |body| == n {
      FieldsInjective(rest, onward);
    } else if |body| > n {
      CompletedBreaksOff(body[n..], !value, onward, rest);
    }
  }

  lemma SomeField(q: string, all: seq<string>, rest: seq<string>) returns (field: string, onward: seq<string>)
    requires q != "" && q + Fields(rest) == Fields(all) && Full(all)
    ensures field != "" && Full(onward)
    ensures |all| == 1 + |onward| && q + Fields(rest) == Field(field) + Fields(onward)
  {
    assert |q + Fields(rest)| > 0;
    field, onward := all[0], all[1..];
  }

  lemma BodyAndMore(body: string, left: string, field: string, more: string)
    requires body != "" && body[|body| - 1] == NUL && body + left == field + more
    ensures |body| == |field| ==> left == more
    ensures |body| > |field| ==> (var onward := body[|field|..]; onward[|onward| - 1] == NUL && onward + left == more)
  {
    if |body| == |field| {
      SameHead(body, left, field, more);
    } else if |body| > |field| {
      var n := |field|;
      assert body + left == body[..n] + (body[n..] + left);
      SameHead(body[..n], body[n..] + left, field, more);
    }
  }

  lemma SameHead(a: string, x: string, b: string, y: string)
    requires |a| == |b| && a + x == b + y
    ensures a == b && x == y
  {
    assert a == (a + x)[..|a|] && x == (a + x)[|a|..];
    assert b == (b + y)[..|b|] && y == (b + y)[|b|..];
  }

  // ---------- how to complete it ----------

  lemma AddField(t: string, all: seq<string>, more: seq<string>)
    requires Fields(all) == t + Fields(more) && Full(all) && Full(more)
    ensures Fields(all + ["x"]) == t + Fields(more + ["x"]) && Full(all + ["x"]) && Full(more + ["x"])
  {
    hide Fields;
    FieldsAppend(all, ["x"]);
    FieldsAppend(more, ["x"]);
    Regroup(t, Fields(more), Fields(["x"]));
  }

  lemma {:induction false} FieldsAppend(a: seq<string>, b: seq<string>)
    ensures Fields(a + b) == Fields(a) + Fields(b)
  {
    if a == [] {
      assert a + b == b;
    } else {
      hide *;
      FirstAndRest(a, b);
      FieldsAppend(a[1..], b);
      FieldFirst(a[0], a[1..]);
      FieldFirst(a[0], a[1..] + b);
      Regroup(Field(a[0]), Fields(a[1..]), Fields(b));
    }
  }

  lemma ShortFields()
    ensures Field("x") == "1:x" && Field("xxxxx") == "5:xxxxx" && Field("xxxxxxxx") == "8:xxxxxxxx"
    ensures Field("1:x") == "3:1:x" && Field("1:x1:x") == "6:1:x1:x"
    ensures Field("x1:x") == "4:x1:x" && Field("x1:x1:x") == "7:x1:x1:x"
    ensures Field("x1:x5:xxxxx") == "11:x1:x5:xxxxx" && Field("x8:xxxxxxxx") == "11:x8:xxxxxxxx"
  {
    assert Decimal(1) == "1" && Decimal(3) == "3" && Decimal(4) == "4" && Decimal(5) == "5";
    assert Decimal(6) == "6" && Decimal(7) == "7" && Decimal(8) == "8" && Decimal(11) == "11";
  }

  lemma FieldsOfTwo(a: string, b: string)
    ensures Fields([a]) == Field(a) && Fields([a, b]) == Field(a) + Field(b)
  {
    assert [a][1..] == [] && [a, b][1..] == [b] && [b][1..] == [];
  }

  lemma FieldsOfThree(a: string, b: string, c: string)
    ensures Fields([a, b, c]) == Field(a) + (Field(b) + Field(c))
  {
    FieldsOfTwo(b, c);
    assert [a, b, c][1..] == [b, c];
  }

  /** One field that begins with up to three characters and goes on with an even or odd number of fields. */
  lemma OneFieldFiller(m: nat, more: bool) returns (field: string, t: string, rest: seq<string>)
    requires 1 <= m <= 3
    ensures |t| == m && Fields([field]) == t + Fields(rest) && |rest| % 2 == (if more then 1 else 0)
    ensures field != "" && Full(rest)
  {
    ShortFields();
    hide Fields, Field, Decimal;
    if m == 1 && more {
      field, t, rest := "x1:x5:xxxxx", "1", ["x", "x", "xxxxx"];
      FieldsOfThree("x", "x", "xxxxx");
    } else if m == 1 {
      field, t, rest := "x8:xxxxxxxx", "1", ["x", "xxxxxxxx"];
      FieldsOfTwo("x", "xxxxxxxx");
    } else if more {
      field, t, rest := if m == 2 then "1:x" else "x1:x", if m == 2 then "3:" else "4:x", ["x"];
    } else {
      field, t, rest := if m == 2 then "1:x1:x" else "x1:x1:x", if m == 2 then "6:" else "7:x", ["x", "x"];
    }
    FieldsOfTwo("x", "x");
    FieldsOfTwo(field, "x");
  }

  /** Fields that begin with m characters and go on with fields, in every combination of parities. */
  lemma {:induction false} Filler(m: nat, odd: bool, more: bool)
    returns (all: seq<string>, t: string, rest: seq<string>)
    requires m >= 1
    ensures |t| == m && Fields(all) == t + Fields(rest)
    ensures |all| % 2 == (if odd then 1 else 0) && |rest| % 2 == (if more then 1 else 0)
    ensures all != [] && Full(all) && Full(rest)
    decreases m
  {
    hide Fields, Field;
    if m <= 3 {
      var field;
      field, t, rest := OneFieldFiller(m, odd == more);
      all := [field];
      if !odd {
        AddField(t, all, rest);
        all, rest := all + ["x"], rest + ["x"];
      }
    } else {
      var onward, u;
      onward, u, rest := Filler(m - 3, !odd, more);
      all, t := ["x"] + onward, "1:x" + u;
      FieldFirst("x", onward);
      ShortFields();
      Regroup("1:x", u, Fields(rest));
    }
  }

  /** A text that breaks off can be completed to non-empty fields by non-empty fields. */
  lemma {:induction false} BreaksOffCompletes(q: string, value: bool) returns (all: seq<string>, rest: seq<string>)
    requires BreaksOff(q, value)
    ensures q + Fields(rest) == Fields(all)
    ensures |rest| % 2 == 0 && (|all| % 2 == 1 <==> value)
    ensures all != [] && rest != [] && Full(all) && Full(rest)
    decreases |q|
  {
    hide *;
    var n, body := AnnouncedSplit(q, value);
    BreaksOffFrom(n, body, value);
    if |body| < n {
      var t, onward;
      rest, t, onward := Filler(n - |body|, false, !value);
      all := FieldCompleted(n, body, t, rest, onward);
    } else if |body| == n {
      rest := ["x", "x"];
      TwoLetters();
      all := FieldCompleted(n, body, "", rest, rest);
    } else {
      var onward;
      onward, rest := BreaksOffCompletes(body[n..], !value);
      all := FieldPassed(n, body, rest, onward);
    }
  }

  lemma TwoLetters()
    ensures Full(["x", "x"]) && Fields(["x", "x"]) == "" + Fields(["x", "x"])
  {
  }

  /** The announced field takes `body` and t; fields follow. */
  lemma FieldCompleted(n: nat, body: string, t: string, rest: seq<string>, onward: seq<string>) returns (all: seq<string>)
    requires |body| + |t| == n > 0 && Fields(rest) == t + Fields(onward) && Full(onward)
    ensures (Decimal(n) + ":" + body) + Fields(rest) == Fields(all) && |all| == 1 + |onward| && Full(all)
  {
    all := [body + t] + onward;
    FieldFirst(body + t, onward);
    hide Fields, Decimal;
    Regroup(Decimal(n) + ":" + body, t, Fields(onward));
    Regroup(Decimal(n) + ":", body, t);
  }

  /** The announced field lies within the text; the rest of the text goes on with fields. */
  lemma FieldPassed(n: nat, body: string, rest: seq<string>, onward: seq<string>) returns (all: seq<string>)
    requires 0 < n <= |body| && body[n..] + Fields(rest) == Fields(onward) && Full(onward)
    ensures (Decimal(n) + ":" + body) + Fields(rest) == Fields(all) && |all| == 1 + |onward| && Full(all)
  {
    all := [body[..n]] + onward;
    FieldFirst(body[..n], onward);
    assert body == body[..n] + body[n..];
    hide Fields, Decimal;
    Regroup(Decimal(n) + ":" + body[..n], body[n..], Fields(rest));
    Regroup(Decimal(n) + ":", body[..n], body[n..]);
  }

  lemma FieldFirst(field: string, onward: seq<string>)
    ensures Fields([field] + onward) == Field(field) + Fields(onward)
  {
    assert ([field] + onward)[1..] == onward;
  }

  lemma Regroup(a: string, b: string, c: string)
    ensures (a + b) + c == a + (b + c)
  {
  }

  lemma FirstAndRest<T>(a: seq<T>, b: seq<T>)
    requires a != []
    ensures a == [a[0]] + a[1..] && a + b == [a[0]] + (a[1..] + b)
  {
  }

  lemma AnnouncedSplit(q: string, value: bool) returns (n: nat, body: string)
    requires BreaksOff(q, value)
    ensures q == Decimal(n) + ":" + body
  {
    ColonIsColon(q);
    n := Announced(q).value;
    body := q[ColonAt(q) + 1..];
  }

  // ---------- which detectors can share a key ----------

  /** `longer` is `shorter`, NUL, and text that, with the NUL behind it, breaks off while non-empty fields are read. */
  predicate Imitates(longer: string, shorter: string) {
    shorter + [NUL] <= longer && BreaksOff(longer[|shorter| + 1..] + [NUL], false)
  }

  lemma SameKeyOneExtends(d: string, x: seq<Dimension>, e: string, y: seq<Dimension>)
    requires MatchKey(d, x) == MatchKey(e, y) && |d| < |e|
    ensures d + [NUL] <= e && e[|d| + 1..] + [NUL] + DimensionKey(y) == DimensionKey(x)
  {
    var x', y' := DimensionKey(x), DimensionKey(y);
    assert d + [NUL] + x' == e + [NUL] + y';
    hide DimensionKey, MatchKey;
    SameHead(d + [NUL], x', e[..|d| + 1], e[|d| + 1..] + [NUL] + y') by {
      assert e == e[..|d| + 1] + e[|d| + 1..];
    }
  }

  lemma ImitatorFound(d: string, x: seq<Dimension>, e: string, y: seq<Dimension>)
    requires ValidFingerprint(x) && MatchKey(d, x) == MatchKey(e, y) && |d| < |e|
    ensures Imitates(e, d)
  {
    SameKeyOneExtends(d, x, e, y);
    FlatIsFull(x);
    KeyOfFlat(x);
    KeyOfFlat(y);
    CompletedBreaksOff(e[|d| + 1..] + [NUL], false, Flat(x), Flat(y));
  }

  lemma ImitatorCollides(d: string, e: string) returns (x: seq<Dimension>, y: seq<Dimension>)
    requires Imitates(e, d)
    ensures ValidFingerprint(x) && ValidFingerprint(y) && MatchKey(d, x) == MatchKey(e, y)
  {
    var p := e[|d| + 1..];
    assert e == (d + [NUL]) + p;
    assert BreaksOff(p + [NUL], false);
    hide *;
    var all, rest := BreaksOffCompletes(p + [NUL], false);
    x := PairedUp(all);
    y := PairedUp(rest);
    KeyAfter(d, x);
    KeyAfter(e, y);
    Regroup(d + [NUL], p, [NUL]);
    Regroup(d + [NUL], p + [NUL], DimensionKey(y));
  }

  lemma PairedUp(fields: seq<string>) returns (x: seq<Dimension>)
    requires fields != [] && |fields| % 2 == 0 && Full(fields)
    ensures ValidFingerprint(x) && DimensionKey(x) == Fields(fields)
  {
    x := Paired(fields);
    PairedIsValid(fields);
    KeyOfPaired(fields);
  }

  lemma KeyAfter(detector: string, x: seq<Dimension>)
    ensures MatchKey(detector, x) == (detector + [NUL]) + DimensionKey(x)
  {
  }

  /** Two detectors share a key for some fingerprints that validation admits. */
  ghost predicate ShareAKey(d: string, e: string) {
    exists x, y :: ValidFingerprint(x) && ValidFingerprint(y) && MatchKey(d, x) == MatchKey(e, y)
  }

  /** Exactly which two detector IDs have valid fingerprints under which they share a match key. */
  lemma SharedKeyIff(d: string, e: string)
    requires d != e
    ensures ShareAKey(d, e) <==> Imitates(d, e) || Imitates(e, d)
  {
    if x, y :| ValidFingerprint(x) && ValidFingerprint(y) && MatchKey(d, x) == MatchKey(e, y) {
      assert MatchKey(d, x)[..|d|] == d && MatchKey(e, y)[..|e|] == e;
      if |d| < |e| {
        ImitatorFound(d, x, e, y);
      } else if |e| < |d| {
        ImitatorFound(e, y, d, x);
      }
    }
    if Imitates(e, d) {
      var x, y := ImitatorCollides(d, e);
    } else if Imitates(d, e) {
      var y, x := ImitatorCollides(e, d);
    }
  }

  /** Detector IDs of which neither imitates the other: the key identifies the detector and the fingerprint. */
  lemma MatchKeyInjective(d: string, x: seq<Dimension>, e: string, y: seq<Dimension>)
    requires ValidFingerprint(x) && ValidFingerprint(y)
    requires !Imitates(d, e) && !Imitates(e, d)
    ensures MatchKey(d, x) == MatchKey(e, y) <==> d == e && x == y
  {
    if MatchKey(d, x) == MatchKey(e, y) {
      if d != e {
        SharedKeyIff(d, e);
      }
      var k := MatchKey(d, x);
      assert DimensionKey(x) == k[|d| + 1..] == DimensionKey(y);
      DimensionKeyInjective(x, y);
    }
  }

  /** An imitator contains a NUL, and what it imitates followed by one. */
  lemma ImitatorHasNul(longer: string, shorter: string)
    requires Imitates(longer, shorter)
    ensures NUL in longer && shorter + [NUL] <= longer
  {
    assert longer[|shorter|] == NUL;
  }

  /** Two matches of different detectors with valid, sorted fingerprints and one key. */
  lemma NulInDetectorIdCollides()
    ensures var x, y := [Dimension("n", [NUL] + "1:n1:v")], [Dimension("n", "v")];
            ValidFingerprint(x) && ValidFingerprint(y) && MatchKey("a", x) == MatchKey("a" + [NUL] + "1:n7:", y)
  {
    var value := [NUL] + "1:n1:v";
    assert Decimal(1) == "1" && Decimal(7) == "7";
    OneDimensionKey("n", value);
    OneDimensionKey("n", "v");
    assert DimensionKey([Dimension("n", "v")]) == "1:n1:v";
    assert DimensionKey([Dimension("n", value)]) == "1:n7:" + value;
    assert "a" + [NUL] + ("1:n7:" + value) == ("a" + [NUL] + "1:n7:") + [NUL] + "1:n1:v";
  }

  lemma OneDimensionKey(name: string, value: string)
    ensures DimensionKey([Dimension(name, value)]) == Field(name) + Field(value)
  {
    assert [Dimension(name, value)][1..] == [];
  }

  /** A NUL is not enough: these IDs contain one and share a key with neither of two others. */
  lemma NulNeedNotCollide()
    ensures !ShareAKey("a" + [NUL], "a") && !ShareAKey("a" + [NUL], "b")
    ensures !ShareAKey("a" + [NUL] + "0:1:", "a")
  {
    ImitatesSplit("a", "");
    ImitatesSplit("a", "0:1:");
    EmptyFieldEnds();
    ShorterDoesNot("a", "a" + [NUL]);
    ShorterDoesNot("a", "a" + [NUL] + "0:1:");
    ShorterDoesNot("b", "a" + [NUL]);
    assert "a" + [NUL] + "" == "a" + [NUL];
    assert ("b" + [NUL])[0] != ("a" + [NUL])[0];
    hide *;
    SharedKeyIff("a" + [NUL], "a");
    SharedKeyIff("a" + [NUL], "b");
    SharedKeyIff("a" + [NUL] + "0:1:", "a");
  }

  lemma ShorterDoesNot(shorter: string, longer: string)
    requires |shorter| < |longer|
    ensures !Imitates(shorter, longer)
  {
  }

  lemma ImitatesSplit(d: string, p: string)
    ensures Imitates(d + [NUL] + p, d) == BreaksOff(p + [NUL], false)
  {
    var longer := d + [NUL] + p;
    assert longer[..|d| + 1] == d + [NUL] && longer[|d| + 1..] == p;
  }

  lemma EmptyFieldEnds()
    ensures !BreaksOff("" + [NUL], false) && !BreaksOff("0:1:" + [NUL], false)
  {
    assert "" + [NUL] == [NUL] && ColonAt([NUL]) == 1;
    BreaksOffFrom(0, "1:" + [NUL], false);
    assert Decimal(0) == "0" && "0:1:" + [NUL] == "0" + ":" + ("1:" + [NUL]);
  }
}
