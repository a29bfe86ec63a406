/**
 * The JavaScript string operations the scripts rely on, for one-character
 * separators: `split`, `join`, `startsWith`, `endsWith` and `includes`.
 */
module JsStrings {

  /** `s.startsWith(p)` */
  predicate StartsWith(s: string, p: string)
  {
    |p| <= |s| && s[..|p|] == p
  }

  /** `s.endsWith(p)` */
  predicate EndsWith(s: string, p: string)
  {
    |p| <= |s| && s[|s| - |p|..] == p
  }

  /** `s.includes(t)`: some position of `s` starts an occurrence of `t`. */
  predicate Includes(s: string, t: string)
    decreases |s|
  {
    StartsWith(s, t) || (|s| > 0 && Includes(s[1..], t))
  }

  function Last<T>(xs: seq<T>): T
    requires |xs| > 0
  {
    xs[|xs| - 1]
  }

  function DropLast<T>(xs: seq<T>): seq<T>
    requires |xs| > 0
  {
    xs[..|xs| - 1]
  }

  /** No piece contains the separator. */
  predicate SepFree(ps: seq<string>, sep: char)
  {
    forall k :: 0 <= k < |ps| ==> sep !in ps[k]
  }

  /** `ps.join(sep)`: the pieces with one separator between neighbours. */
  function Join(ps: seq<string>, sep: char): string
  {
    if |ps| == 0 then ""
    else if |ps| == 1 then ps[0]
    else ps[0] + [sep] + Join(ps[1..], sep)
  }

  /**
   * `s.split(sep)`: the pieces of `s` between separators, in order. There is
   * always at least one piece (`"".split(sep)` is `[""]`) and no piece holds
   * the separator; `JoinSplit` shows that joining the pieces gives `s` back.
   */
  function Split(s: string, sep: char): (r: seq<string>)
    ensures |r| >= 1
    ensures SepFree(r, sep)
  {
    if s == [] then [[]]
    else
      var rest := Split(s[1..], sep);
      if s[0] == sep then [[]] + rest
      else [[s[0]] + rest[0]] + rest[1..]
  }

  /** Joining the pieces of `s` gives `s` back. */
  lemma {:induction false} JoinSplit(s: string, sep: char)
    ensures Join(Split(s, sep), sep) == s
  {
    if s != [] {
      var rest := Split(s[1..], sep);
      JoinSplit(s[1..], sep);
      if s[0] != sep && |rest| > 1 {
        assert ([[s[0]] + rest[0]] + rest[1..])[1..] == rest[1..];
      }
      assert [s[0]] + s[1..] == s;
    }
  }

  /** A string without the separator is a single piece. */
  lemma {:induction false} SplitSepFree(x: string, sep: char)
    requires sep !in x
    ensures Split(x, sep) == [x]
  {
    if x != [] {
      SplitSepFree(x[1..], sep);
      assert [x[0]] + x[1..] == x;
    }
  }

  /** The first separator of `x + [sep] + y` ends the first piece. */
  lemma {:induction false} SplitAtFirstSep(x: string, y: string, sep: char)
    requires sep !in x
    ensures Split(x + [sep] + y, sep) == [x] + Split(y, sep)
  {
    var s := x + [sep] + y;
    if x == [] {
      assert s[1..] == y;
    } else {
      assert s[1..] == x[1..] + [sep] + y;
      SplitAtFirstSep(x[1..], y, sep);
      assert [x[0]] + x[1..] == x;
    }
  }

  /** Splitting undoes joining separator-free pieces. */
  lemma {:induction false} SplitJoin(ps: seq<string>, sep: char)
    requires |ps| >= 1 && SepFree(ps, sep)
    ensures Split(Join(ps, sep), sep) == ps
  {
    if |ps| == 1 {
      SplitSepFree(ps[0], sep);
    } else {
      assert sep !in ps[0];
      SplitJoin(ps[1..], sep);
      SplitAtFirstSep(ps[0], Join(ps[1..], sep), sep);
      assert [ps[0]] + ps[1..] == ps;
    }
  }

  /** Joining one more piece adds a separator and that piece at the end. */
  lemma {:induction false} JoinSnoc(ps: seq<string>, x: string, sep: char)
    requires |ps| >= 1
    ensures Join(ps + [x], sep) == Join(ps, sep) + [sep] + x
  {
    if |ps| > 1 {
      assert (ps + [x])[1..] == ps[1..] + [x];
      JoinSnoc(ps[1..], x, sep);
    }
  }

  /** Text appended after the last separator extends the last piece. */
  lemma {:induction false} JoinAppendLast(ps: seq<string>, t: string, sep: char)
    requires |ps| >= 1
    ensures Join(DropLast(ps) + [Last(ps) + t], sep) == Join(ps, sep) + t
  {
    if |ps| > 1 {
      var qs := DropLast(ps) + [Last(ps) + t];
      assert qs[0] == ps[0];
      assert qs[1..] == DropLast(ps[1..]) + [Last(ps[1..]) + t];
      JoinAppendLast(ps[1..], t, sep);
    }
  }

  /** Every character of a piece is a character of the joined string. */
  lemma {:induction false} PieceCharsInJoin(ps: seq<string>, sep: char, k: nat, ch: char)
    requires k < |ps| && ch in ps[k]
    ensures ch in Join(ps, sep)
  {
    if |ps| > 1 && k > 0 {
      PieceCharsInJoin(ps[1..], sep, k - 1, ch);
    }
  }

  /** `(s + sep + t).split(sep)` when `t` has no separator: the pieces of `s`, then `t`. */
  lemma SplitAfterSep(s: string, t: string, sep: char)
    requires sep !in t
    ensures Split(s + [sep] + t, sep) == Split(s, sep) + [t]
  {
    var ps := Split(s, sep) + [t];
    JoinSplit(s, sep);
    JoinSnoc(Split(s, sep), t, sep);
    SplitJoin(ps, sep);
  }

  /** `(s + t).split(sep)` when `t` has no separator: `t` extends the last piece of `s`. */
  lemma SplitAppendFree(s: string, t: string, sep: char)
    requires sep !in t
    ensures Split(s + t, sep) == DropLast(Split(s, sep)) + [Last(Split(s, sep)) + t]
  {
    var ps := Split(s, sep);
    var qs := DropLast(ps) + [Last(ps) + t];
    JoinSplit(s, sep);
    JoinAppendLast(ps, t, sep);
    assert sep !in Last(ps) + t;
    assert SepFree(qs, sep) by {
      forall k | 0 <= k < |qs| ensures sep !in qs[k] {
        if k < |qs| - 1 { assert qs[k] == ps[k]; }
      }
    }
    SplitJoin(qs, sep);
  }

  /** A prefix of a string without `ch` has no `ch` either. */
  lemma PrefixLacks(x: string, y: string, ch: char)
    requires x <= y && ch !in y
    ensures ch !in x
  {
    forall i | 0 <= i < |x| ensures x[i] != ch {
      assert x[i] == y[i];
    }
  }

  /** A piece of `s.split(sep)` has no character that `s` lacks. */
  lemma PieceLacks(s: string, sep: char, k: nat, ch: char)
    requires k < |Split(s, sep)| && ch !in s
    ensures ch !in Split(s, sep)[k]
  {
    JoinSplit(s, sep);
    if ch in Split(s, sep)[k] {
      PieceCharsInJoin(Split(s, sep), sep, k, ch);
    }
  }

  /** A string that ends with `t` includes `t`. */
  lemma {:induction false} IncludesSuffix(a: string, t: string)
    ensures Includes(a + t, t)
  {
    if a == [] {
      assert a + t == t;
    } else {
      assert (a + t)[1..] == a[1..] + t;
      IncludesSuffix(a[1..], t);
    }
  }
}
