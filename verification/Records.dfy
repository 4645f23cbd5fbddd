/** Records laid end to end: the shape of every list on the wire, and how readers take it apart. */
module Records {
  import opened Bytes

  type Reader<!T> = Bytes -> Option<(T, Bytes)>

  /** The records of a list, one after another. */
  function Each<T>(write: T -> Bytes, xs: seq<T>): Bytes {
    if xs == [] then [] else write(xs[0]) + Each(write, xs[1..])
  }

  function Map<T, U>(f: T -> U, xs: seq<T>): (ys: seq<U>)
    ensures |ys| == |xs| && forall i | 0 <= i < |xs| :: ys[i] == f(xs[i])
  {
    seq(|xs|, i requires 0 <= i < |xs| => f(xs[i]))
  }

  /** Read n records. */
  function ReadMany<U>(read: Reader<U>, n: nat, s: Bytes): (r: Option<(seq<U>, Bytes)>)
    ensures r.Some? ==> |r.value.0| == n
  {
    if n == 0 then Some(([], s))
    else
      match read(s)
      case None => None
      case Some((first, rest)) =>
        match ReadMany(read, n - 1, rest)
        case None => None
        case Some((others, end)) => Some(([first] + others, end))
  }

  lemma {:induction false} EachAppend<T>(write: T -> Bytes, xs: seq<T>, x: T)
    ensures Each(write, xs + [x]) == Each(write, xs) + write(x)
  {
    if xs == [] {
      assert Each(write, [x]) == write(x) + Each(write, [x][1..]);
      assert xs + [x] == [x];
    } else {
      EachAppend(write, xs[1..], x);
      assert (xs + [x])[0] == xs[0] && (xs + [x])[1..] == xs[1..] + [x];
      Associate(write(xs[0]), Each(write, xs[1..]), write(x));
    }
  }

  /** One more record written by a loop. */
  lemma EachNext<T>(write: T -> Bytes, xs: seq<T>, i: nat)
    requires i < |xs|
    ensures Each(write, xs[..i + 1]) == Each(write, xs[..i]) + write(xs[i])
  {
    assert xs[..i + 1] == xs[..i] + [xs[i]];
    EachAppend(write, xs[..i], xs[i]);
  }

  lemma EachAll<T>(write: T -> Bytes, xs: seq<T>)
    ensures Each(write, xs[..0]) == [] && Each(write, xs[..|xs|]) == Each(write, xs)
  {
    assert xs[..|xs|] == xs;
  }

  /** The reader takes exactly one record off the front and returns what is visible of it. */
  ghost predicate Inverts<T, U>(read: Reader<U>, write: T -> Bytes, view: T -> U, x: T) {
    forall rest: Bytes :: read(write(x) + rest) == Some((view(x), rest))
  }

  lemma {:induction false} ReadManyInverts<T(!new), U>(read: Reader<U>, write: T -> Bytes, view: T -> U, xs: seq<T>, rest: Bytes)
    requires forall x | x in xs :: Inverts(read, write, view, x)
    ensures ReadMany(read, |xs|, Each(write, xs) + rest) == Some((Map(view, xs), rest))
  {
    if xs == [] {
      assert Each(write, xs) + rest == rest;
    } else {
      var others := xs[1..];
      var after := Each(write, others) + rest;
      ReadManyInverts(read, write, view, others, rest);
      Associate(write(xs[0]), Each(write, others), rest);
      assert Inverts(read, write, view, xs[0]);
      assert read(write(xs[0]) + after) == Some((view(xs[0]), after));
      assert Map(view, xs) == [view(xs[0])] + Map(view, others);
    }
  }

  /** Equal concatenations of self-delimiting records show equal lists. */
  lemma {:induction false} EachInjective<T(!new), U>(read: Reader<U>, write: T -> Bytes, view: T -> U, xs: seq<T>, ys: seq<T>)
    requires forall x | x in xs :: Inverts(read, write, view, x) && write(x) != []
    requires forall y | y in ys :: Inverts(read, write, view, y) && write(y) != []
    requires Each(write, xs) == Each(write, ys)
    ensures Map(view, xs) == Map(view, ys)
  {
    if xs != [] && ys != [] {
      assert xs[0] in xs && ys[0] in ys;
      var a, b := Each(write, xs[1..]), Each(write, ys[1..]);
      assert read(write(xs[0]) + a) == Some((view(xs[0]), a));
      assert read(write(ys[0]) + b) == Some((view(ys[0]), b));
      EachInjective(read, write, view, xs[1..], ys[1..]);
      assert Map(view, xs) == [view(xs[0])] + Map(view, xs[1..]);
      assert Map(view, ys) == [view(ys[0])] + Map(view, ys[1..]);
    }
  }
}
