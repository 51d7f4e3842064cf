/** JavaScript values as the boot code handles them, and the few string
    operations it relies on: truthiness, `String(v)`, `s.match(t)` for a
    plain pattern, and `s.split(sep)`. */
module JsValues {

  datatype Option<+T> = None | Some(value: T)

  /** A field or argument of the boot code: `undefined`, `null` or a string. */
  datatype JsVal = Undefined | Null | Str(s: string)

  /** JavaScript truthiness: of these values only a non-empty string is truthy. */
  predicate Truthy(v: JsVal) {
    v.Str? && v.s != ""
  }

  /** `String(v)`: the text a template literal or a property key makes of `v`. */
  function ToStr(v: JsVal): string {
    match v
    case Undefined => "undefined"
    case Null => "null"
    case Str(s) => s
  }

  /** `v || fallback` for a string fallback. */
  function Or(v: JsVal, fallback: string): string {
    if Truthy(v) then v.s else fallback
  }

  /** `s.match(t)` for a pattern `t` without regular-expression
      metacharacters: `t` occurs somewhere in `s`. */
  predicate Contains(s: string, t: string)
    decreases |s|
  {
    t <= s || (s != [] && Contains(s[1..], t))
  }

  lemma {:induction false} ContainsSuffix(a: string, t: string)
    ensures Contains(a + t, t)
  {
    if a == [] {
      assert a + t == t;
    } else {
      assert (a + t)[1..] == a[1..] + t;
      ContainsSuffix(a[1..], t);
    }
  }

  /** The inverse of Split: the pieces glued back with the separator. */
  function Join(pieces: seq<string>, sep: char): string
    requires |pieces| >= 1
    decreases |pieces|
  {
    if |pieces| == 1 then pieces[0] else pieces[0] + [sep] + Join(pieces[1..], sep)
  }

  /** `s.split(sep)` for a one-character separator: the maximal runs between
      separators, empty runs included, so there is always at least one piece. */
  function Split(s: string, sep: char): (r: seq<string>)
    ensures |r| >= 1
    ensures forall i :: 0 <= i < |r| ==> sep !in r[i]
    ensures Join(r, sep) == s
    decreases |s|
  {
    if s == [] then [""]
    else
      var rest := Split(s[1..], sep);
      if s[0] == sep then
        assert ([""] + rest)[1..] == rest;
        [""] + rest
      else
        var r := [[s[0]] + rest[0]] + rest[1..];
        assert r[1..] == rest[1..];
        assert |rest| > 1 ==> Join(rest, sep) == rest[0] + [sep] + Join(rest[1..], sep);
        assert s == [s[0]] + s[1..];
        r
  }

  lemma {:induction false} SplitWithoutSeparator(s: string, sep: char)
    requires sep !in s
    ensures Split(s, sep) == [s]
  {
    if s != [] {
      SplitWithoutSeparator(s[1..], sep);
      assert [s[0]] + s[1..] == s;
    }
  }

  /** Splitting stops at the first separator: what precedes it is the first piece. */
  lemma {:induction false} SplitAtFirstSeparator(a: string, b: string, sep: char)
    requires sep !in a
    ensures Split(a + [sep] + b, sep) == [a] + Split(b, sep)
  {
    var s := a + [sep] + b;
    if a == [] {
      assert s[1..] == b;
    } else {
      assert s[1..] == a[1..] + [sep] + b;
      SplitAtFirstSeparator(a[1..], b, sep);
      assert [a[0]] + a[1..] == a;
    }
  }
}
