/** The Python runtime behaviour the extraction scripts rely on: optional values, the
    exceptions the core can raise, and a few generic sequence helpers. */
module PyCore {

  /** Python's `None` / a present value. */
  datatype Option<+T> = None | Some(value: T)

  /** The exceptions the modelled code can meet. Only their cause is kept; `str(ex)`
      of a library exception is not modelled. */
  datatype Exception =
    | EmptyMin                      // ValueError: min() over an empty iterable
    | InvalidLiteral(text: string)   // ValueError: int() of a string that is no integer
    | JoinedNone                    // TypeError: str.join met an item that is None
    | NotIterable                   // TypeError: iterating (or type-checking) a value of the wrong type
    | MissingKey(key: string)       // KeyError: dict lookup of an absent key
    | ParserError(isValueError: bool) // raised by the XML parser; tells whether it is a ValueError
    | ReadError                      // the file could not be opened or decoded
    | SettingsError(message: string) // ValueError raised by a settings validator
    | ZeroDivision                   // ZeroDivisionError: integer modulo by zero

  /** Whether the exception is a Python `ValueError` (or a subclass of it). */
  predicate IsValueError(e: Exception) {
    e.EmptyMin? || e.InvalidLiteral? || e.SettingsError? || (e.ParserError? && e.isValueError)
  }

  /** The result of a Python call: a value, or the exception it raised. */
  datatype Outcome<+T> = Ok(value: T) | Raise(error: Exception)

  /** `root.find(path)`: the first match, or None when nothing matches. */
  function First<T>(s: seq<T>): (r: Option<T>)
    ensures r.None? <==> s == []
    ensures r.Some? ==> r.value == s[0]
  {
    if s == [] then None else Some(s[0])
  }

  /** The present values of `s`, in order (`[x for x in s if x is not None]`). */
  function Somes<T>(s: seq<Option<T>>): (r: seq<T>)
    ensures |r| <= |s|
    ensures (forall i :: 0 <= i < |s| ==> s[i].Some?) ==> |r| == |s| && forall i :: 0 <= i < |s| ==> r[i] == s[i].value
    ensures forall j :: 0 <= j < |r| ==> Some(r[j]) in s
    ensures forall i :: 0 <= i < |s| && s[i].Some? ==> s[i].value in r
  {
    if s == [] then [] else (if s[0].Some? then [s[0].value] else []) + Somes(s[1..])
  }

  /** Dropping the Nones of two runs gives the present values of the first, then those of the second. */
  lemma {:induction false} SomesAppend<T>(a: seq<Option<T>>, b: seq<Option<T>>)
    ensures Somes(a + b) == Somes(a) + Somes(b)
  {
    if a == [] {
      assert a + b == b;
    } else {
      assert (a + b)[0] == a[0];
      assert (a + b)[1..] == a[1..] + b;
      SomesAppend(a[1..], b);
    }
  }

  /** The elements of `s` without those that are None, kept as options. */
  function DropNones<T>(s: seq<Option<T>>): (r: seq<Option<T>>)
    ensures forall i :: 0 <= i < |r| ==> r[i].Some?
    ensures Somes(r) == Somes(s)
  {
    if s == [] then [] else (if s[0].Some? then [s[0]] else []) + DropNones(s[1..])
  }

  /** Concatenation of a sequence of sequences, in order. */
  function Flatten<T>(s: seq<seq<T>>): seq<T> {
    if s == [] then [] else s[0] + Flatten(s[1..])
  }

  lemma {:induction false} FlattenAppend<T>(a: seq<seq<T>>, b: seq<seq<T>>)
    ensures Flatten(a + b) == Flatten(a) + Flatten(b)
  {
    if a == [] {
      assert a + b == b;
    } else {
      assert (a + b)[1..] == a[1..] + b;
      FlattenAppend(a[1..], b);
    }
  }

  /** The elements of `s` that satisfy `p`, in order. */
  function Filter<T>(p: T -> bool, s: seq<T>): (r: seq<T>)
    ensures |r| <= |s|
    ensures forall x <- r :: p(x) && x in s
    ensures forall i :: 0 <= i < |s| && p(s[i]) ==> s[i] in r
  {
    if s == [] then [] else (if p(s[0]) then [s[0]] else []) + Filter(p, s[1..])
  }

  lemma {:induction false} FilterAppend<T>(p: T -> bool, a: seq<T>, b: seq<T>)
    ensures Filter(p, a + b) == Filter(p, a) + Filter(p, b)
  {
    if a == [] {
      assert a + b == b;
    } else {
      assert (a + b)[1..] == a[1..] + b;
      FilterAppend(p, a[1..], b);
    }
  }

  /** `list(map(f, xs))` where `f` may raise: every result in order, or the exception of
      the first element on which `f` raises (later elements are not looked at). */
  function MapAll<A, B>(f: A -> Outcome<B>, xs: seq<A>): (r: Outcome<seq<B>>)
    ensures r.Ok? <==> forall i :: 0 <= i < |xs| ==> f(xs[i]).Ok?
    ensures r.Ok? ==> |r.value| == |xs| && forall i :: 0 <= i < |xs| ==> r.value[i] == f(xs[i]).value
    ensures r.Raise? ==> exists i :: (0 <= i < |xs| && f(xs[i]) == Raise(r.error)
      && forall j :: 0 <= j < i ==> f(xs[j]).Ok?)
  {
    if xs == [] then Ok([])
    else match f(xs[0])
      case Raise(e) => Raise(e)
      case Ok(v) =>
        match MapAll(f, xs[1..])
        case Raise(e) =>
          assert exists i :: (0 <= i < |xs| - 1 && f(xs[1..][i]) == Raise(e)
            && forall j :: 0 <= j < i ==> f(xs[1..][j]).Ok?);
          Raise(e)
        case Ok(vs) => Ok([v] + vs)
  }

  /** The results of `f` on every element of `s`, one after the other. */
  function FlatMap<A, B>(f: A -> seq<B>, s: seq<A>): seq<B> {
    if s == [] then [] else FlatMap(f, s[..|s| - 1]) + f(s[|s| - 1])
  }

  lemma {:induction false} FlatMapAppend<A, B>(f: A -> seq<B>, a: seq<A>, b: seq<A>)
    ensures FlatMap(f, a + b) == FlatMap(f, a) + FlatMap(f, b)
  {
    if b == [] {
      assert a + b == a;
    } else {
      var n := |b| - 1;
      assert (a + b)[..|a + b| - 1] == a + b[..n];
      assert (a + b)[|a + b| - 1] == b[n];
      FlatMapAppend(f, a, b[..n]);
      assert FlatMap(f, b) == FlatMap(f, b[..n]) + f(b[n]);
    }
  }

  /** `[f(x) for x in s if f(x) is not None]`: the present results of `f`, in order. */
  function FilterMap<A, B>(f: A -> Option<B>, s: seq<A>): (r: seq<B>)
    ensures |r| <= |s|
  {
    if s == [] then [] else (if f(s[0]).Some? then [f(s[0]).value] else []) + FilterMap(f, s[1..])
  }

  lemma {:induction false} FilterMapAppend<A, B>(f: A -> Option<B>, a: seq<A>, b: seq<A>)
    ensures FilterMap(f, a + b) == FilterMap(f, a) + FilterMap(f, b)
  {
    if a == [] {
      assert a + b == b;
    } else {
      assert (a + b)[0] == a[0];
      assert (a + b)[1..] == a[1..] + b;
      FilterMapAppend(f, a[1..], b);
      var head := if f(a[0]).Some? then [f(a[0]).value] else [];
      assert FilterMap(f, a + b) == head + FilterMap(f, a[1..] + b);
      assert FilterMap(f, a) == head + FilterMap(f, a[1..]);
    }
  }

  /** Appending one input appends its result, if any. */
  lemma FilterMapSnoc<A, B>(f: A -> Option<B>, a: seq<A>, x: A)
    ensures FilterMap(f, a + [x]) == FilterMap(f, a) + if f(x).Some? then [f(x).value] else []
  {
    FilterMapAppend(f, a, [x]);
    assert [x][1..] == [];
  }

  /** Every result comes from its own input, and results keep the inputs' order: they sit at
      strictly increasing input positions. */
  lemma {:induction false} FilterMapSubsequence<A, B>(f: A -> Option<B>, s: seq<A>) returns (idx: seq<nat>)
    ensures IsSourceIndex(f, s, FilterMap(f, s), idx)
  {
    if s == [] {
      return [];
    }
    var rest := FilterMapSubsequence(f, s[1..]);
    idx := FilterMapStep(f, s, rest);
  }

  /** `idx` gives, for each element of `r`, the strictly increasing position in `s` whose
      result it is. */
  ghost predicate IsSourceIndex<A, B>(f: A -> Option<B>, s: seq<A>, r: seq<B>, idx: seq<nat>) {
    && |idx| == |r|
    && (forall k :: 0 <= k < |idx| ==> idx[k] < |s| && f(s[idx[k]]) == Some(r[k]))
    && (forall k, l :: 0 <= k < l < |idx| ==> idx[k] < idx[l])
  }

  lemma FilterMapStep<A, B>(f: A -> Option<B>, s: seq<A>, rest: seq<nat>) returns (idx: seq<nat>)
    requires s != [] && IsSourceIndex(f, s[1..], FilterMap(f, s[1..]), rest)
    ensures IsSourceIndex(f, s, FilterMap(f, s), idx)
  {
    var shifted := Shifted(f, s, rest);
    var tail := FilterMap(f, s[1..]);
    if f(s[0]).Some? {
      assert FilterMap(f, s) == [f(s[0]).value] + tail;
      idx := Prepended(f, s, tail, shifted);
    } else {
      assert FilterMap(f, s) == tail;
      idx := shifted;
    }
  }

  /** A result taken from `s[0]` goes in front of the results placed at `shifted`. */
  lemma Prepended<A, B>(f: A -> Option<B>, s: seq<A>, tail: seq<B>, shifted: seq<nat>) returns (idx: seq<nat>)
    requires s != [] && f(s[0]).Some? && |shifted| == |tail|
    requires forall k :: 0 <= k < |shifted| ==> 0 < shifted[k] < |s| && f(s[shifted[k]]) == Some(tail[k])
    requires forall k, l :: 0 <= k < l < |shifted| ==> shifted[k] < shifted[l]
    ensures IsSourceIndex(f, s, [f(s[0]).value] + tail, idx)
  {
    idx := [0] + shifted;
    assert forall k :: 1 <= k < |idx| ==> idx[k] == shifted[k - 1];
  }

  /** Positions in `s[1..]` moved to positions in `s`. */
  lemma Shifted<A, B>(f: A -> Option<B>, s: seq<A>, rest: seq<nat>) returns (shifted: seq<nat>)
    requires s != [] && IsSourceIndex(f, s[1..], FilterMap(f, s[1..]), rest)
    ensures |shifted| == |rest|
    ensures forall k :: 0 <= k < |rest| ==> 0 < shifted[k] < |s| && f(s[shifted[k]]) == Some(FilterMap(f, s[1..])[k])
    ensures forall k, l :: 0 <= k < l < |shifted| ==> shifted[k] < shifted[l]
  {
    shifted := seq(|rest|, k requires 0 <= k < |rest| => rest[k] + 1);
    forall k | 0 <= k < |rest| ensures f(s[shifted[k]]) == Some(FilterMap(f, s[1..])[k]) {
      assert s[shifted[k]] == s[1..][rest[k]];
    }
  }
}
