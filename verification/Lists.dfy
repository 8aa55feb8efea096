/** Filtering and mapping a sequence in one pass, and its three laws. */
module Lists {
  import opened Bytes

  function AppendOpt<U>(s: seq<U>, o: Option<U>): seq<U> {
    match o
    case None => s
    case Some(x) => s + [x]
  }

  /** The values that `f` gives for the elements of `s`, in order. */
  function FilterMap<T, U>(s: seq<T>, f: T -> Option<U>): seq<U> {
    if s == [] then []
    else AppendOpt(FilterMap(s[..|s| - 1], f), f(s[|s| - 1]))
  }

  function Then<T, U, V>(f: T -> Option<U>, g: U -> Option<V>): T -> Option<V> {
    x => match f(x) case None => None case Some(y) => g(y)
  }

  lemma FilterMapAppend<T, U>(s: seq<T>, x: T, f: T -> Option<U>)
    ensures FilterMap(s + [x], f) == AppendOpt(FilterMap(s, f), f(x))
  {
    assert (s + [x])[..|s|] == s;
  }

  lemma {:induction false} FilterMapTwice<T, U, V>(s: seq<T>, f: T -> Option<U>, g: U -> Option<V>)
    ensures FilterMap(FilterMap(s, f), g) == FilterMap(s, Then(f, g))
  {
    if s != [] {
      var front, x := s[..|s| - 1], s[|s| - 1];
      FilterMapTwice(front, f, g);
      if f(x).Some? {
        FilterMapAppend(FilterMap(front, f), f(x).value, g);
      }
    }
  }

  lemma {:induction false} FilterMapSame<T, U>(s: seq<T>, f: T -> Option<U>, g: T -> Option<U>)
    requires forall i :: 0 <= i < |s| ==> f(s[i]) == g(s[i])
    ensures FilterMap(s, f) == FilterMap(s, g)
  {
    if s != [] {
      FilterMapSame(s[..|s| - 1], f, g);
    }
  }

  lemma {:induction false} FilterMapAll<T>(s: seq<T>, f: T -> Option<T>)
    requires forall i :: 0 <= i < |s| ==> f(s[i]) == Some(s[i])
    ensures FilterMap(s, f) == s
  {
    if s != [] {
      FilterMapAll(s[..|s| - 1], f);
    }
  }

  lemma {:induction false} FilterMapNone<T, U>(s: seq<T>, f: T -> Option<U>)
    requires forall i :: 0 <= i < |s| ==> f(s[i]) == None
    ensures FilterMap(s, f) == []
  {
    if s != [] {
      FilterMapNone(s[..|s| - 1], f);
    }
  }

  /** Two filters that share out the work of a third. */
  lemma {:induction false} FilterMapShared<T, U>(s: seq<T>, f: T -> Option<U>, g: T -> Option<U>, h: T -> Option<U>)
    requires forall i :: 0 <= i < |s| ==>
               || (f(s[i]) == None && g(s[i]) == h(s[i]))
               || (g(s[i]) == None && f(s[i]) == h(s[i]))
    ensures multiset(FilterMap(s, f)) + multiset(FilterMap(s, g)) == multiset(FilterMap(s, h))
  {
    if s != [] {
      FilterMapShared(s[..|s| - 1], f, g, h);
    }
  }
}
