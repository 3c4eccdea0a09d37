/** Values shared by the models: options, results, text helpers and time windows. */
module Common {

  datatype Option<+T> = None | Some(value: T)

  datatype Result<+T> = Ok(value: T) | Err

  // ---------- text, one char per byte, ASCII white space and case ----------

  predicate IsSpace(c: char) {
    9 <= c as int <= 13 || c == ' '
  }

  function TrimLeft(s: string): string {
    if s != "" && IsSpace(s[0]) then TrimLeft(s[1..]) else s
  }

  function TrimRight(s: string): string {
    if s != "" && IsSpace(s[|s| - 1]) then TrimRight(s[..|s| - 1]) else s
  }

  function TrimSpace(s: string): string {
    TrimRight(TrimLeft(s))
  }

  function LowerChar(c: char): char {
    if 'A' <= c <= 'Z' then (c as int + 32) as char else c
  }

  function ToLower(s: string): string {
    seq(|s|, i requires 0 <= i < |s| => LowerChar(s[i]))
  }

  /** `strings.Split` on one separator: n separators give n + 1 parts. */
  function Split(s: string, sep: char): (parts: seq<string>)
    ensures parts != []
  {
    if s == "" then [""]
    else
      var rest := Split(s[1..], sep);
      if s[0] == sep then [""] + rest else [[s[0]] + rest[0]] + rest[1..]
  }

  function Join(parts: seq<string>, separator: string): string {
    if parts == [] then "" else if |parts| == 1 then parts[0] else parts[0] + separator + Join(parts[1..], separator)
  }

  lemma JoinSteps(first: string, parts: seq<string>, separator: string)
    requires parts != []
    ensures Join([first] + parts, separator) == first + separator + Join(parts, separator)
    ensures Join([first + parts[0]] + parts[1..], separator) == first + Join(parts, separator)
  {
    assert ([first] + parts)[1..] == parts;
    var longer := [first + parts[0]] + parts[1..];
    assert longer[1..] == parts[1..];
    hide *;
    if |parts| == 1 {
      JoinOne(longer, separator);
      JoinOne(parts, separator);
    } else {
      JoinMore(longer, separator);
      JoinMore(parts, separator);
    }
    JoinMore([first] + parts, separator);
  }

  lemma JoinOne(parts: seq<string>, separator: string)
    requires |parts| == 1
    ensures Join(parts, separator) == parts[0]
  {
  }

  lemma JoinMore(parts: seq<string>, separator: string)
    requires |parts| > 1
    ensures Join(parts, separator) == parts[0] + separator + Join(parts[1..], separator)
  {
  }

  /** The parts hold no separator and, joined by it, give the text back. */
  lemma {:induction false} SplitJoins(s: string, sep: char)
    ensures Join(Split(s, sep), [sep]) == s && forall k :: 0 <= k < |Split(s, sep)| ==> sep !in Split(s, sep)[k]
  {
    if s != "" {
      SplitJoins(s[1..], sep);
      var rest := Split(s[1..], sep);
      assert s == [s[0]] + s[1..];
      JoinSteps(if s[0] == sep then "" else [s[0]], rest, [sep]);
      assert Split(s, sep) == if s[0] == sep then [""] + rest else [[s[0]] + rest[0]] + rest[1..];
      hide Join, Split;
    }
  }

  /** A text is joined from slash-free parts in one way only. */
  lemma {:induction false} JoinUnique(a: seq<string>, b: seq<string>)
    requires a != [] && b != [] && Join(a, "/") == Join(b, "/")
    requires (forall k :: 0 <= k < |a| ==> '/' !in a[k]) && (forall k :: 0 <= k < |b| ==> '/' !in b[k])
    ensures a == b
    decreases |a|
  {
    FirstSlash(a);
    FirstSlash(b);
    if |a| > 1 && |b| > 1 {
      var x, y := Join(a[1..], "/"), Join(b[1..], "/");
      assert Join(a, "/") == a[0] + ("/" + x) && Join(b, "/") == b[0] + ("/" + y);
      assert a[0] == Join(a, "/")[..|a[0]|] && b[0] == Join(b, "/")[..|b[0]|];
      assert |a[0]| == |b[0]|;
      assert x == Join(a, "/")[|a[0]| + 1..] && y == Join(b, "/")[|b[0]| + 1..];
      JoinUnique(a[1..], b[1..]);
      assert a == [a[0]] + a[1..] && b == [b[0]] + b[1..];
    }
  }

  /** The first part ends at the first slash, or is everything. */
  lemma FirstSlash(parts: seq<string>)
    requires parts != [] && '/' !in parts[0]
    ensures var s := Join(parts, "/");
            && |parts[0]| <= |s| && (forall k :: 0 <= k < |parts[0]| ==> s[k] != '/')
            && (if |parts| == 1 then s == parts[0] else |parts[0]| < |s| && s[|parts[0]|] == '/')
  {
    assert forall k :: 0 <= k < |parts[0]| ==> parts[0][k] in parts[0];
  }

  predicate AllWhite(s: string) {
    forall k :: 0 <= k < |s| ==> s[k] as int in {9, 10, 11, 12, 13, 32}
  }

  lemma {:induction false} TrimLeftCuts(s: string) returns (cut: string)
    ensures s == cut + TrimLeft(s) && AllWhite(cut)
    ensures TrimLeft(s) != "" ==> TrimLeft(s)[0] as int !in {9, 10, 11, 12, 13, 32}
  {
    if s != "" && IsSpace(s[0]) {
      var rest := TrimLeftCuts(s[1..]);
      cut := [s[0]] + rest;
      assert s == [s[0]] + s[1..];
    } else {
      cut := "";
    }
  }

  lemma {:induction false} TrimRightCuts(s: string) returns (cut: string)
    ensures s == TrimRight(s) + cut && AllWhite(cut)
    ensures TrimRight(s) != "" ==> TrimRight(s)[|TrimRight(s)| - 1] as int !in {9, 10, 11, 12, 13, 32}
  {
    if s != "" && IsSpace(s[|s| - 1]) {
      var rest := TrimRightCuts(s[..|s| - 1]);
      cut := rest + [s[|s| - 1]];
      assert s == s[..|s| - 1] + [s[|s| - 1]];
    } else {
      cut := "";
    }
  }

  /** Trimming cuts off exactly the white space around the text. */
  lemma TrimSpaceTrims(s: string) returns (front: string, back: string)
    ensures s == front + TrimSpace(s) + back && AllWhite(front) && AllWhite(back)
    ensures var t := TrimSpace(s);
            t != "" ==> t[0] as int !in {9, 10, 11, 12, 13, 32} && t[|t| - 1] as int !in {9, 10, 11, 12, 13, 32}
  {
    front := TrimLeftCuts(s);
    back := TrimRightCuts(TrimLeft(s));
    var t := TrimSpace(s);
    assert TrimLeft(s) == t + back;
    assert t != "" ==> TrimLeft(s)[0] == t[0];
  }

  /** Lower-casing maps each capital letter to its small one and nothing else. */
  lemma ToLowerMeans(s: string)
    ensures ToLower("ABCDEFGHIJKLMNOPQRSTUVWXYZ") == "abcdefghijklmnopqrstuvwxyz"
    ensures |ToLower(s)| == |s| && forall k :: 0 <= k < |s| ==> 'A' <= s[k] <= 'Z' || ToLower(s)[k] == s[k]
  {
    var lowered := ToLower("ABCDEFGHIJKLMNOPQRSTUVWXYZ");
    assert |lowered| == 26;
    assert forall k :: 0 <= k < 26 ==> lowered[k] == "abcdefghijklmnopqrstuvwxyz"[k];
  }

  // ---------- limits shared by detection and projection ----------

  const MAX_SESSION_EVENTS := 10_000
  const MAX_CITATIONS := 50

  // ---------- sets ----------

  lemma {:induction false} SubsetCardinality<T>(a: set<T>, b: set<T>)
    requires a <= b
    ensures |a| <= |b| && (|a| == |b| ==> a == b)
    decreases a
  {
    if a != {} {
      var x :| x in a;
      SubsetCardinality(a - {x}, b - {x});
      assert a == (a - {x}) + {x} && b == (b - {x}) + {x};
    } else if |b| == 0 {
      assert b == {};
    }
  }

  // ---------- time in nanoseconds ----------

  const SECOND := 1_000_000_000

  predicate Within(a: int, b: int, window: nat) {
    a - b <= window && b - a <= window
  }

  const MAX_INT64 := 0x7fff_ffff_ffff_ffff
  const MIN_INT64 := -0x8000_0000_0000_0000

  /** Go's `a.Sub(b)`: the difference, saturated to 64 bits. */
  function SaturatingSub(a: int, b: int): int {
    if a - b > MAX_INT64 then MAX_INT64 else if a - b < MIN_INT64 then MIN_INT64 else a - b
  }

  /** `durationAbsolute`: 64-bit negation leaves the least value negative. */
  function DurationAbsolute(d: int): int {
    if d < 0 && d != MIN_INT64 then -d else d
  }

  /**
   * The code's window test agrees with the exact one used in the models unless the first time lies
   * 2^63 ns (292 years) or more before the second; there it always says "within".
   */
  lemma WindowTestIsExact(a: int, b: int, window: nat)
    requires window < MAX_INT64
    ensures (DurationAbsolute(SaturatingSub(a, b)) <= window) == (Within(a, b, window) || a - b <= MIN_INT64)
  {
  }
}
