/**
 * The few pieces of Python semantics that the plugin leans on: the values a
 * settings file can hold, Python's truthiness test on them, and `str.split`
 * with an explicit one-character separator.
 */
module Python {

  datatype Option<+T> = None | Some(value: T)

  /**
   * A value as the settings file can hold it (JSON-shaped). `Null` is
   * Python's `None`; numbers are whole numbers here.
   */
  datatype Value =
    | Null
    | Bool(b: bool)
    | Int(i: int)
    | Str(s: string)
    | List(items: seq<Value>)
    | Dict(entries: map<string, Value>)

  /** Python's `bool(v)`: `None`, `False`, `0` and empty containers are falsy. */
  predicate Truthy(v: Value) {
    match v
    case Null => false
    case Bool(b) => b
    case Int(i) => i != 0
    case Str(s) => s != []
    case List(items) => items != []
    case Dict(entries) => entries != map[]
  }

  /** `s.split(sep)`: every occurrence of `sep` separates two parts, empty parts kept. */
  function Split(s: string, sep: char): (parts: seq<string>)
    ensures |parts| >= 1
    decreases |s|
  {
    if s == [] then [[]]
    else
      var rest := Split(s[1..], sep);
      if s[0] == sep then [[]] + rest
      else [[s[0]] + rest[0]] + rest[1..]
  }

  /** `sep.join(parts)` for a non-empty list of parts. */
  function Join(parts: seq<string>, sep: char): (s: string)
    requires |parts| >= 1
    decreases |parts|
  {
    if |parts| == 1 then parts[0] else parts[0] + [sep] + Join(parts[1..], sep)
  }

  /** No part that `Split` produces contains the separator. */
  lemma {:induction false} SplitPartsHaveNoSeparator(s: string, sep: char)
    ensures forall k :: 0 <= k < |Split(s, sep)| ==> sep !in Split(s, sep)[k]
    decreases |s|
  {
    if s != [] {
      SplitPartsHaveNoSeparator(s[1..], sep);
      var rest := Split(s[1..], sep);
      if s[0] != sep {
        assert sep !in rest[0];
        assert sep !in [s[0]] + rest[0];
      }
    }
  }

  /** Joining the parts again gives back the string that was split. */
  lemma {:induction false} JoinSplit(s: string, sep: char)
    ensures Join(Split(s, sep), sep) == s
    decreases |s|
  {
    if s != [] {
      var rest := Split(s[1..], sep);
      var parts := Split(s, sep);
      JoinSplit(s[1..], sep);
      if s[0] == sep {
        assert parts[0] == [] && parts[1..] == rest;
        assert Join(parts, sep) == [sep] + Join(rest, sep);
      } else if |rest| == 1 {
        assert parts == [[s[0]] + rest[0]];
      } else {
        assert parts[0] == [s[0]] + rest[0] && parts[1..] == rest[1..];
        assert Join(rest, sep) == rest[0] + [sep] + Join(rest[1..], sep);
        assert Join(parts, sep) == [s[0]] + (rest[0] + [sep] + Join(rest[1..], sep));
      }
      assert s == [s[0]] + s[1..];
    }
  }

  /** Splitting a string without the separator yields that string alone. */
  lemma {:induction false} SplitWithoutSeparator(p: string, sep: char)
    requires sep !in p
    ensures Split(p, sep) == [p]
    decreases |p|
  {
    if p != [] {
      assert sep !in p[1..];
      SplitWithoutSeparator(p[1..], sep);
      assert [p[0]] + p[1..] == p;
    }
  }

  /** A separator-free head followed by the separator splits off as one part. */
  lemma {:induction false} SplitAtFirstSeparator(p: string, sep: char, t: string)
    requires sep !in p
    ensures Split(p + [sep] + t, sep) == [p] + Split(t, sep)
    decreases |p|
  {
    var s := p + [sep] + t;
    if p == [] {
      assert s[0] == sep && s[1..] == t;
    } else {
      assert sep !in p[1..];
      SplitAtFirstSeparator(p[1..], sep, t);
      assert s[1..] == p[1..] + [sep] + t;
      assert [p[0]] + p[1..] == p;
    }
  }

  /** Splitting a join of separator-free parts gives back the parts. */
  lemma {:induction false} SplitJoin(parts: seq<string>, sep: char)
    requires |parts| >= 1
    requires forall k :: 0 <= k < |parts| ==> sep !in parts[k]
    ensures Split(Join(parts, sep), sep) == parts
    decreases |parts|
  {
    if |parts| == 1 {
      SplitWithoutSeparator(parts[0], sep);
    } else {
      SplitJoin(parts[1..], sep);
      SplitAtFirstSeparator(parts[0], sep, Join(parts[1..], sep));
      assert [parts[0]] + parts[1..] == parts;
    }
  }

  /**
   * `r` is the longest suffix of `s` that holds no separator: it is a suffix,
   * it holds no separator, and unless it is the whole string a separator
   * stands right before it.
   */
  predicate IsLastComponent(s: string, sep: char, r: string) {
    |r| <= |s| && s[|s| - |r|..] == r && sep !in r &&
    (|r| < |s| ==> s[|s| - |r| - 1] == sep)
  }

  /** The last component of the tail stays the last component of the whole. */
  lemma LastComponentOfTail(s: string, sep: char, r: string)
    requires s != [] && IsLastComponent(s[1..], sep, r)
    requires |r| == |s| - 1 ==> s[0] == sep
    ensures IsLastComponent(s, sep, r)
  {
  }

  /** A string without the separator is its own last component. */
  lemma WholeIsLastComponent(s: string, sep: char)
    requires sep !in s
    ensures IsLastComponent(s, sep, s)
  {
  }

  /** The last part of `Split(s, sep)` is the last component of `s`. */
  lemma {:induction false} LastPartIsLastComponent(s: string, sep: char)
    ensures var parts := Split(s, sep); IsLastComponent(s, sep, parts[|parts| - 1])
    decreases |s|
  {
    var parts := Split(s, sep);
    if s == [] {
      assert parts == [[]];
    } else {
      var rest := Split(s[1..], sep);
      var r := rest[|rest| - 1];
      LastPartIsLastComponent(s[1..], sep);
      if s[0] != sep && |rest| == 1 {
        JoinSplit(s[1..], sep);
        assert rest[0] == s[1..] && parts == [[s[0]] + s[1..]];
        assert [s[0]] + s[1..] == s;
        WholeIsLastComponent(s, sep);
      } else {
        assert parts[|parts| - 1] == r;
        if s[0] != sep && |r| == |s| - 1 {
          assert r == s[1..];
          SplitWithoutSeparator(s[1..], sep);
          assert false;
        }
        LastComponentOfTail(s, sep, r);
      }
    }
  }
}
