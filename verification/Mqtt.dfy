/** mqtt/mqtt.go: topic filters and the subscription index. */
module Mqtt {
  import opened Bytes
  import opened Lists

  // ----- topics and filters ------------------------------------------------

  /** `strings.Split(s, "/")`. */
  function Split(s: string): (parts: seq<string>)
    ensures parts != []
  {
    if s == [] then [""]
    else if s[0] == '/' then [""] + Split(s[1..])
    else
      var parts := Split(s[1..]);
      [[s[0]] + parts[0]] + parts[1..]
  }

  function Join(parts: seq<string>): string
    requires parts != []
  {
    if |parts| == 1 then parts[0] else parts[0] + ("/" + Join(parts[1..]))
  }

  predicate IsWildcard(topic: string) {
    '#' in topic || '+' in topic
  }

  predicate ValidFilter(wild: seq<string>) {
    forall i :: 0 <= i < |wild| ==>
      && (IsWildcard(wild[i]) ==> |wild[i]| == 1)
      && (wild[i] == "#" ==> i == |wild| - 1)
  }

  /** The comparison that the loop of `matches` makes, level by level. */
  predicate Covers(wild: seq<string>, parts: seq<string>)
    decreases |parts|
  {
    if parts == [] then wild == [] || wild == ["#"]
    else if wild == [] then false
    else if wild[0] == "#" then true
    else (parts[0] == wild[0] || wild[0] == "+") && Covers(wild[1..], parts[1..])
  }

  method Matches(wild: seq<string>, parts: seq<string>) returns (r: bool)
    ensures r == Covers(wild, parts)
  {
    var i := 0;
    while i < |parts|
      invariant i <= |parts| && i <= |wild|
      invariant Covers(wild, parts) == Covers(wild[i..], parts[i..])
    {
      if i >= |wild| {
        return false;
      }
      if wild[i] == "#" {
        return true;
      }
      if parts[i] != wild[i] && wild[i] != "+" {
        return false;
      }
      assert wild[i..][1..] == wild[i + 1..] && parts[i..][1..] == parts[i + 1..];
      i := i + 1;
    }
    if i == |wild| - 1 && wild[|wild| - 1] == "#" {
      assert wild[i..] == ["#"];
      return true;
    }
    assert |wild[i..]| == 1 ==> wild[i..][0] == wild[|wild| - 1];
    if i == |wild| {
      return true;
    }
    return false;
  }

  method CheckFilter(wild: seq<string>) returns (r: bool)
    ensures r == ValidFilter(wild)
  {
    for i := 0 to |wild|
      invariant forall k :: 0 <= k < i ==>
        (IsWildcard(wild[k]) ==> |wild[k]| == 1) && (wild[k] == "#" ==> k == |wild| - 1)
    {
      if IsWildcard(wild[i]) && |wild[i]| != 1 {
        return false;
      }
      if wild[i] == "#" && i != |wild| - 1 {
        return false;
      }
    }
    return true;
  }

  // ----- what matching means -----------------------------------------------

  function Concat(levels: seq<seq<string>>): seq<string> {
    if levels == [] then [] else levels[0] + Concat(levels[1..])
  }

  /** `sub` replaces each "+" by one level, "#" by any number of levels, and
      every other level by itself. */
  predicate Substitutes(wild: seq<string>, sub: seq<seq<string>>) {
    && |sub| == |wild|
    && forall i :: 0 <= i < |wild| && wild[i] != "#" ==>
         if wild[i] == "+" then |sub[i]| == 1 else sub[i] == [wild[i]]
  }

  /** Some replacement of the wildcards turns the filter into the topic. */
  ghost predicate Yields(wild: seq<string>, parts: seq<string>) {
    exists sub :: Substitutes(wild, sub) && Concat(sub) == parts
  }

  lemma ValidTail(wild: seq<string>)
    requires wild != [] && ValidFilter(wild)
    ensures ValidFilter(wild[1..])
  {
    assert forall i :: 0 <= i < |wild| - 1 ==> wild[1..][i] == wild[i + 1];
  }

  lemma {:induction false} CoversGivesSubstitution(wild: seq<string>, parts: seq<string>)
      returns (sub: seq<seq<string>>)
    requires ValidFilter(wild) && Covers(wild, parts)
    ensures Substitutes(wild, sub) && Concat(sub) == parts
    decreases |parts|
  {
    if wild == [] {
      sub := [];
    } else if wild[0] == "#" {
      assert |wild| == 1;
      sub := [parts];
      assert Concat(sub) == parts + Concat(sub[1..]);
    } else {
      ValidTail(wild);
      var tail := CoversGivesSubstitution(wild[1..], parts[1..]);
      sub := [[parts[0]]] + tail;
      assert sub[1..] == tail;
      assert forall i :: 1 <= i < |wild| ==> sub[i] == tail[i - 1] && wild[i] == wild[1..][i - 1];
      assert parts == [parts[0]] + parts[1..];
    }
  }

  lemma {:induction false} SubstitutionCovers(wild: seq<string>, sub: seq<seq<string>>)
    requires ValidFilter(wild) && Substitutes(wild, sub)
    ensures Covers(wild, Concat(sub))
    decreases |wild|
  {
    if wild != [] && wild[0] != "#" {
      ValidTail(wild);
      assert forall i :: 0 <= i < |wild| - 1 ==> sub[1..][i] == sub[i + 1] && wild[1..][i] == wild[i + 1];
      SubstitutionCovers(wild[1..], sub[1..]);
      assert |sub[0]| == 1;
      var parts := Concat(sub);
      assert parts[1..] == Concat(sub[1..]);
    } else if wild != [] {
      assert |wild| == 1 && wild == ["#"];
    }
  }

  /** Matching a valid filter is sound and complete. */
  lemma MatchesIff(wild: seq<string>, parts: seq<string>)
    requires ValidFilter(wild)
    ensures Covers(wild, parts) <==> Yields(wild, parts)
  {
    if Covers(wild, parts) {
      var sub := CoversGivesSubstitution(wild, parts);
    }
    if Yields(wild, parts) {
      var sub :| Substitutes(wild, sub) && Concat(sub) == parts;
      SubstitutionCovers(wild, sub);
    }
  }

  lemma {:induction false} JoinOfSplit(s: string)
    ensures Join(Split(s)) == s
  {
    if s != [] {
      var tail := Split(s[1..]);
      JoinOfSplit(s[1..]);
      assert s == [s[0]] + s[1..];
      if s[0] == '/' {
        JoinCons("", tail);
      } else {
        assert tail == [tail[0]] + tail[1..];
        JoinPrefixed(s[0], tail[0], tail[1..]);
      }
    }
  }

  lemma JoinCons(part: string, parts: seq<string>)
    requires parts != []
    ensures Join([part] + parts) == part + ("/" + Join(parts))
  {
    assert ([part] + parts)[1..] == parts;
  }

  lemma JoinPrefixed(c: char, part: string, rest: seq<string>)
    ensures Join([[c] + part] + rest) == [c] + Join([part] + rest)
  {
    if rest == [] {
      assert [[c] + part] + rest == [[c] + part] && [part] + rest == [part];
    } else {
      JoinCons([c] + part, rest);
      JoinCons(part, rest);
      hide Join;
      var tail := "/" + Join(rest);
      assert ([c] + part) + tail == [c] + (part + tail);
    }
  }

  lemma {:induction false} SplitHasNoSlashes(s: string)
    ensures forall i :: 0 <= i < |Split(s)| ==> '/' !in Split(s)[i]
  {
    if s != [] {
      SplitHasNoSlashes(s[1..]);
    }
  }

  lemma SplitStep(c: char, s: string)
    ensures Split([c] + s) == if c == '/' then [""] + Split(s) else [[c] + Split(s)[0]] + Split(s)[1..]
  {
    assert ([c] + s)[1..] == s;
  }

  lemma SplitNothing()
    ensures Split([]) == [""]
  {}

  /** A separator splits into what stands before it and what follows. */
  lemma {:induction false} SplitAtSlash(a: string, b: string)
    ensures Split(a + "/" + b) == Split(a) + Split(b)
  {
    hide Split;
    if a == [] {
      SplitNothing();
      SplitStep('/', b);
      assert a + "/" + b == "/" + b;
    } else {
      var c, later := a[0], a[1..];
      assert a == [c] + later && a + "/" + b == [c] + (later + "/" + b);
      SplitAtSlash(later, b);
      SplitStep(c, later);
      SplitStep(c, later + "/" + b);
    }
  }

  lemma {:induction false} SplitWithoutSlash(p: string)
    requires '/' !in p
    ensures Split(p) == [p]
  {
    if p != [] {
      SplitWithoutSlash(p[1..]);
      assert p == [p[0]] + p[1..];
    }
  }

  /** The levels of a topic are the only strings without separators that join
      to it. */
  lemma {:induction false} SplitIsUnique(parts: seq<string>)
    requires parts != [] && forall i :: 0 <= i < |parts| ==> '/' !in parts[i]
    ensures Split(Join(parts)) == parts
  {
    SplitWithoutSlash(parts[0]);
    if |parts| == 1 {
      assert parts == [parts[0]];
    } else {
      SplitIsUnique(parts[1..]);
      SplitAtSlash(parts[0], Join(parts[1..]));
      assert Join(parts) == parts[0] + "/" + Join(parts[1..]);
      assert parts == [parts[0]] + parts[1..];
    }
  }

  lemma SplitIff(s: string, parts: seq<string>)
    ensures parts == Split(s) <==>
            parts != [] && (forall i :: 0 <= i < |parts| ==> '/' !in parts[i]) && Join(parts) == s
  {
    JoinOfSplit(s);
    SplitHasNoSlashes(s);
    if parts != [] && forall i :: 0 <= i < |parts| ==> '/' !in parts[i] {
      SplitIsUnique(parts);
    }
  }

  lemma {:induction false} SplitHasNoWildcards(s: string)
    requires !IsWildcard(s)
    ensures forall i :: 0 <= i < |Split(s)| ==> !IsWildcard(Split(s)[i])
  {
    if s != [] {
      SplitHasNoWildcards(s[1..]);
    }
  }

  lemma {:induction false} CoversWithoutWildcards(wild: seq<string>, parts: seq<string>)
    requires forall i :: 0 <= i < |wild| ==> !IsWildcard(wild[i])
    ensures Covers(wild, parts) <==> wild == parts
    decreases |parts|
  {
    if parts == [] {
      assert IsWildcard("#");
    } else if wild != [] {
      assert !IsWildcard(wild[0]);
      assert wild[0] != "#" && wild[0] != "+";
      CoversWithoutWildcards(wild[1..], parts[1..]);
      assert wild == [wild[0]] + wild[1..] && parts == [parts[0]] + parts[1..];
    }
  }

  /** A filter without wildcards matches itself only. */
  lemma PlainFilterMatchesItself(filter: string, topic: string)
    requires !IsWildcard(filter)
    ensures ValidFilter(Split(filter))
    ensures Covers(Split(filter), Split(topic)) <==> filter == topic
  {
    SplitHasNoWildcards(filter);
    forall i | 0 <= i < |Split(filter)|
      ensures Split(filter)[i] != "#"
    {
      assert !IsWildcard(Split(filter)[i]);
    }
    CoversWithoutWildcards(Split(filter), Split(topic));
    JoinOfSplit(filter);
    JoinOfSplit(topic);
  }

  // ----- valid filters, character by character -----------------------------

  /** Wildcards fill a level, and "#" is last. */
  predicate WildcardsStandAlone(s: string) {
    forall i :: 0 <= i < |s| && s[i] in {'#', '+'} ==>
      && (i > 0 ==> s[i - 1] == '/') && (i < |s| - 1 ==> s[i + 1] == '/')
      && (s[i] == '#' ==> i == |s| - 1)
  }

  lemma {:induction false} FirstSlash(s: string) returns (p: string, t: string)
    requires '/' in s
    ensures s == p + "/" + t && '/' !in p
  {
    if s[0] == '/' {
      p, t := [], s[1..];
    } else {
      p, t := FirstSlash(s[1..]);
      assert s == [s[0]] + s[1..];
      p := [s[0]] + p;
    }
  }

  /** A level is a wildcard or contains none. */
  predicate ValidLevel(p: string) {
    IsWildcard(p) ==> |p| == 1
  }

  lemma ValidFilterCons(p: string, rest: seq<string>)
    requires rest != []
    ensures ValidFilter([p] + rest) <==> ValidLevel(p) && p != "#" && ValidFilter(rest)
  {
    var wild := [p] + rest;
    assert forall i :: 0 <= i < |rest| ==> wild[i + 1] == rest[i];
    if ValidFilter(wild) {
      ValidTail(wild);
      assert wild[1..] == rest && wild[0] == p;
    }
    if ValidLevel(p) && p != "#" && ValidFilter(rest) {
      forall i | 0 <= i < |wild|
        ensures (IsWildcard(wild[i]) ==> |wild[i]| == 1) && (wild[i] == "#" ==> i == |wild| - 1)
      {
        if i > 0 {
          assert wild[i] == rest[i - 1];
        }
      }
    }
  }

  lemma StandAloneCons(p: string, t: string)
    requires '/' !in p
    ensures WildcardsStandAlone(p + "/" + t) <==> ValidLevel(p) && p != "#" && WildcardsStandAlone(t)
  {
    var s, n := p + "/" + t, |p| + 1;
    assert s[n - 1] == '/';
    assert forall i :: 0 <= i < |p| ==> s[i] == p[i];
    assert forall i :: 0 <= i < |t| ==> s[n + i] == t[i];
    if WildcardsStandAlone(s) {
      StandAloneHead(p, s);
      StandAloneTail(s, t, n);
    }
    if ValidLevel(p) && p != "#" && WildcardsStandAlone(t) {
      StandAloneJoined(p, s, t);
    }
  }

  lemma NextToWildcard(s: string, i: nat)
    requires WildcardsStandAlone(s) && i < |s| && (s[i] == '#' || s[i] == '+')
    ensures i > 0 ==> s[i - 1] == '/'
    ensures i < |s| - 1 ==> s[i] == '+' && s[i + 1] == '/'
  {}

  lemma StandAloneHead(p: string, s: string)
    requires '/' !in p && |p| < |s| && p == s[..|p|] && WildcardsStandAlone(s)
    ensures ValidLevel(p) && p != "#"
  {
    assert forall k :: 0 <= k < |p| ==> s[k] == p[k] && s[k] != '/';
    if IsWildcard(p) {
      var i :| 0 <= i < |p| && (p[i] == '#' || p[i] == '+');
      NextToWildcard(s, i);
    }
  }

  lemma StandAloneTail(s: string, t: string, n: nat)
    requires n + |t| == |s| && t == s[n..] && WildcardsStandAlone(s)
    ensures WildcardsStandAlone(t)
  {
    forall i | 0 <= i < |t| && t[i] in {'#', '+'}
      ensures (i > 0 ==> t[i - 1] == '/') && (i < |t| - 1 ==> t[i + 1] == '/') && (t[i] == '#' ==> i == |t| - 1)
    {
      assert s[n + i] == t[i];
      assert i > 0 ==> s[n + i - 1] == t[i - 1];
      assert i < |t| - 1 ==> s[n + i + 1] == t[i + 1];
    }
  }

  lemma StandAloneJoined(p: string, s: string, t: string)
    requires s == p + "/" + t && ValidLevel(p) && p != "#" && WildcardsStandAlone(t)
    ensures WildcardsStandAlone(s)
  {
    var n := |p| + 1;
    forall i | 0 <= i < |s| && s[i] in {'#', '+'}
      ensures (i > 0 ==> s[i - 1] == '/') && (i < |s| - 1 ==> s[i + 1] == '/') && (s[i] == '#' ==> i == |s| - 1)
    {
      if i < |p| {
        assert s[i] == p[i] && IsWildcard(p);
        assert p == [p[0]];
      } else {
        assert s[n - 1] == '/' && i >= n;
        assert t[i - n] == s[i];
        assert i > n ==> s[i - 1] == t[i - n - 1];
        assert i < |s| - 1 ==> s[i + 1] == t[i - n + 1];
      }
    }
  }

  lemma {:induction false} ValidIffStandAlone(s: string)
    ensures ValidFilter(Split(s)) <==> WildcardsStandAlone(s)
    decreases |s|
  {
    hide Split, ValidFilter;
    if '/' in s {
      var p, t := FirstSlash(s);
      SplitAtSlash(p, t);
      SplitWithoutSlash(p);
      ValidIffStandAlone(t);
      hide WildcardsStandAlone;
      ValidFilterCons(p, Split(t));
      StandAloneCons(p, t);
    } else {
      SplitWithoutSlash(s);
      OneLevel(s);
    }
  }

  lemma OneLevel(s: string)
    requires '/' !in s
    ensures ValidFilter([s]) <==> WildcardsStandAlone(s)
  {
    assert ValidFilter([s]) <==> ValidLevel(s) by {
      assert [s][0] == s;
    }
    assert forall k :: 0 <= k < |s| ==> s[k] != '/';
    if WildcardsStandAlone(s) && IsWildcard(s) {
      var i :| 0 <= i < |s| && (s[i] == '#' || s[i] == '+');
      NextToWildcard(s, i);
    }
    if ValidLevel(s) {
      forall i | 0 <= i < |s| && s[i] in {'#', '+'}
        ensures i == 0 && |s| == 1
      {
        assert IsWildcard(s);
      }
    }
  }

  // ----- subscriptions as a history of requests ----------------------------

  datatype Conn = Conn(id: nat)

  datatype Sub = Sub(filter: string, c: Conn)

  datatype Op = Add(filter: string, c: Conn) | Unsub(filter: string, c: Conn) | UnsubAll(c: Conn)

  predicate Acceptable(filter: string) {
    !IsWildcard(filter) || ValidFilter(Split(filter))
  }

  /** The filters that subscribing accepts. */
  lemma AcceptableIff(filter: string)
    ensures Acceptable(filter) <==> WildcardsStandAlone(filter)
  {
    ValidIffStandAlone(filter);
    if !IsWildcard(filter) {
      PlainFilterMatchesItself(filter, filter);
    }
  }

  /** Unsubscribing ends all subscriptions of the connection to that topic, but
      has no effect on filters with wildcards. */
  predicate Ends(op: Op, s: Sub) {
    match op
    case Add(_, _) => false
    case Unsub(filter, c) => s == Sub(filter, c) && !IsWildcard(filter)
    case UnsubAll(c) => s.c == c
  }

  /** Request `j` subscribed, and no later request has ended it. */
  predicate LiveAt(h: seq<Op>, j: nat)
    requires j < |h|
  {
    && h[j].Add? && Acceptable(h[j].filter)
    && forall k :: j < k < |h| ==> !Ends(h[k], Sub(h[j].filter, h[j].c))
  }

  /** The live subscriptions among the first `k` requests of the whole history. */
  function LiveUpTo(h: seq<Op>, k: nat): seq<Sub>
    requires k <= |h|
  {
    if k == 0 then []
    else AppendOpt(LiveUpTo(h, k - 1), if LiveAt(h, k - 1) then Some(Sub(h[k - 1].filter, h[k - 1].c)) else None)
  }

  function Live(h: seq<Op>): seq<Sub> {
    LiveUpTo(h, |h|)
  }

  function Surviving(op: Op): Sub -> Option<Sub> {
    (s: Sub) => if Ends(op, s) then None else Some(s)
  }

  function Survivors(live: seq<Sub>, op: Op): seq<Sub> {
    FilterMap(live, Surviving(op))
  }

  lemma {:induction false} LiveUpToAppend(h: seq<Op>, op: Op, k: nat)
    requires k <= |h|
    ensures LiveUpTo(h + [op], k) == Survivors(LiveUpTo(h, k), op)
  {
    if k > 0 {
      LiveUpToAppend(h, op, k - 1);
      var j, longer := k - 1, h + [op];
      assert longer[j] == h[j] && longer[|h|] == op;
      assert forall i :: j < i < |h| ==> longer[i] == h[i];
      if h[j].Add? {
        var s := Sub(h[j].filter, h[j].c);
        assert LiveAt(longer, j) <==> LiveAt(h, j) && !Ends(op, s);
        FilterMapAppend(LiveUpTo(h, j), s, Surviving(op));
      }
    }
  }

  /** How one more request changes the live subscriptions. */
  lemma LiveAppend(h: seq<Op>, op: Op)
    ensures Live(h + [op]) ==
            AppendOpt(Survivors(Live(h), op),
                      if op.Add? && Acceptable(op.filter) then Some(Sub(op.filter, op.c)) else None)
  {
    LiveUpToAppend(h, op, |h|);
    assert (h + [op])[|h|] == op;
  }

  lemma NothingEnds(live: seq<Sub>, op: Op)
    requires op.Add? || (op.Unsub? && IsWildcard(op.filter))
    ensures Survivors(live, op) == live
  {
    FilterMapAll(live, Surviving(op));
  }

  ghost function Yielding(topic: string): Sub -> Option<Conn> {
    (s: Sub) => if Yields(Split(s.filter), Split(topic)) then Some(s.c) else None
  }

  /** The connections of the live subscriptions whose filter yields the topic. */
  ghost function Subscribed(live: seq<Sub>, topic: string): seq<Conn> {
    FilterMap(live, Yielding(topic))
  }

  // ----- the index ---------------------------------------------------------

  datatype Wild = Wild(wild: seq<string>, c: Conn)

  function Present(): Option<Conn> -> Option<Conn> {
    slot => slot
  }

  /** The entries of a slice that are not tombstones. */
  function NonNil(slots: seq<Option<Conn>>): seq<Conn> {
    FilterMap(slots, Present())
  }

  function ExactFor(topic: string): Sub -> Option<Conn> {
    (s: Sub) => if s.filter == topic && !IsWildcard(topic) then Some(s.c) else None
  }

  /** Connections subscribed to exactly `topic`. */
  function Exact(live: seq<Sub>, topic: string): seq<Conn> {
    FilterMap(live, ExactFor(topic))
  }

  function ToWild(): Sub -> Option<Wild> {
    (s: Sub) => if IsWildcard(s.filter) then Some(Wild(Split(s.filter), s.c)) else None
  }

  function Wilds(live: seq<Sub>): seq<Wild> {
    FilterMap(live, ToWild())
  }

  function Covering(parts: seq<string>): Wild -> Option<Conn> {
    (w: Wild) => if Covers(w.wild, parts) then Some(w.c) else None
  }

  function Matching(wilds: seq<Wild>, parts: seq<string>): seq<Conn> {
    FilterMap(wilds, Covering(parts))
  }

  function Other(c: Conn): Conn -> Option<Conn> {
    x => if x == c then None else Some(x)
  }

  function Without(conns: seq<Conn>, c: Conn): seq<Conn> {
    FilterMap(conns, Other(c))
  }

  function OtherWild(c: Conn): Wild -> Option<Wild> {
    (w: Wild) => if w.c == c then None else Some(w)
  }

  function WildsWithout(wilds: seq<Wild>, c: Conn): seq<Wild> {
    FilterMap(wilds, OtherWild(c))
  }

  function Blank(slot: Option<Conn>, c: Conn): Option<Conn> {
    if slot == Some(c) then None else slot
  }

  /** The slice after in-place writes of nil over `c`. */
  function Blanked(slots: seq<Option<Conn>>, c: Conn): seq<Option<Conn>> {
    seq(|slots|, i requires 0 <= i < |slots| => Blank(slots[i], c))
  }

  /** The two tables hold exactly the live subscriptions. */
  ghost predicate Indexes(subs: map<string, seq<Option<Conn>>>, wildcards: seq<Wild>, live: seq<Sub>) {
    && wildcards == Wilds(live)
    && (forall t :: t in subs ==> !IsWildcard(t) && NonNil(subs[t]) == Exact(live, t))
    && (forall t :: t !in subs ==> Exact(live, t) == [])
  }

  class Subscriptions {
    var subs: map<string, seq<Option<Conn>>>
    var wildcards: seq<Wild>
    /** All requests so far. */
    ghost var history: seq<Op>

    ghost predicate Valid()
      reads this
    {
      Indexes(subs, wildcards, Live(history))
    }

    constructor ()
      ensures Valid() && history == []
    {
      subs := map[];
      wildcards := [];
      history := [];
    }

    method Add(topic: string, c: Conn)
      requires Valid()
      modifies this
      ensures Valid() && history == old(history) + [Op.Add(topic, c)]
    {
      hide Indexes;
      ghost var op, live := Op.Add(topic, c), Live(history);
      LiveAppend(history, op);
      NothingEnds(live, op);
      history := history + [op];
      if IsWildcard(topic) {
        var w := Wild(Split(topic), c);
        var ok := CheckFilter(w.wild);
        if ok {
          AddWild(subs, wildcards, live, topic, c);
          wildcards := wildcards + [w];
        }
      } else {
        var slots := if topic in subs then subs[topic] else [];
        AddExact(subs, wildcards, live, topic, c, slots);
        subs := subs[topic := slots + [Some(c)]];
      }
    }

    /** Every live subscription that matches is found, once for each time it
        was made: exact ones in order, then wildcard ones in order. */
    method Subscribers(topic: string) returns (res: seq<Option<Conn>>)
      requires Valid()
      ensures NonNil(res) == Exact(Live(history), topic) + Matching(Wilds(Live(history)), Split(topic))
      ensures multiset(NonNil(res)) == multiset(Subscribed(Live(history), topic))
    {
      hide Covers, Live, Indexes, FilterMap, Split, Wilds, Exact, Subscribed;
      LookUp(subs, wildcards, Live(history), topic);
      res := if topic in subs then subs[topic] else [];
      ghost var exact := NonNil(res);
      var parts := Split(topic);
      NoWildsMatch(parts);
      for i := 0 to |wildcards|
        invariant NonNil(res) == exact + Matching(wildcards[..i], parts)
      {
        assert wildcards[..i + 1] == wildcards[..i] + [wildcards[i]];
        FilterMapAppend(wildcards[..i], wildcards[i], Covering(parts));
        var m := Matches(wildcards[i].wild, parts);
        if m {
          FilterMapAppend(res, Some(wildcards[i].c), Present());
          res := res + [Some(wildcards[i].c)];
        }
      }
      assert wildcards[..|wildcards|] == wildcards;
      assert NonNil(res) == Exact(Live(history), topic) + Matching(Wilds(Live(history)), parts);
      SubscribedSplits(history, topic);
    }

    method Unsub(topic: string, c: Conn)
      requires Valid()
      modifies this
      ensures Valid() && history == old(history) + [Op.Unsub(topic, c)]
    {
      hide Indexes, Live;
      ghost var op, live := Op.Unsub(topic, c), Live(history);
      LiveAppend(history, op);
      history := history + [op];
      if topic in subs {
        ghost var before := subs[topic];
        var slots := subs[topic];
        var nils := 0;
        for i := 0 to |slots|
          invariant |slots| == |before|
          invariant forall k :: 0 <= k < |slots| ==> slots[k] == if k < i then Blank(before[k], c) else before[k]
          invariant 0 <= nils <= i
          invariant nils == i ==> forall k :: 0 <= k < i ==> slots[k] == None
        {
          if slots[i] == Some(c) {
            slots := slots[i := None];
          }
          if slots[i] == None {
            nils := nils + 1;
          }
        }
        assert slots == Blanked(before, c);
        UnsubExact(subs, wildcards, live, topic, c);
        if nils == |slots| {
          FilterMapNone(slots, Present());
          subs := subs - {topic};
        } else {
          subs := subs[topic := slots];
        }
      } else {
        UnsubAbsent(subs, wildcards, live, topic, c);
      }
    }

    /** The inner loop of `unsubAll`. */
    method BlankAll(slots: seq<Option<Conn>>, c: Conn) returns (v: seq<Option<Conn>>)
      ensures v == Blanked(slots, c)
    {
      v := slots;
      for i := 0 to |v|
        invariant |v| == |slots|
        invariant forall k :: 0 <= k < |v| ==> v[k] == if k < i then Blank(slots[k], c) else slots[k]
      {
        if v[i] == Some(c) {
          v := v[i := None];
        }
      }
    }

    /** The second loop of `unsubAll`. */
    method OtherWilds(wilds: seq<Wild>, c: Conn) returns (wildNew: seq<Wild>)
      ensures wildNew == WildsWithout(wilds, c)
    {
      wildNew := [];
      for i := 0 to |wilds|
        invariant wildNew == WildsWithout(wilds[..i], c)
      {
        assert wilds[..i + 1] == wilds[..i] + [wilds[i]];
        FilterMapAppend(wilds[..i], wilds[i], OtherWild(c));
        if wilds[i].c != c {
          wildNew := wildNew + [wilds[i]];
        }
      }
      assert wilds[..|wilds|] == wilds;
    }

    method UnsubAll(c: Conn)
      requires Valid()
      modifies this
      ensures Valid() && history == old(history) + [Op.UnsubAll(c)]
    {
      hide Indexes, Live, Blanked, FilterMap;
      ghost var op, live := Op.UnsubAll(c), Live(history);
      LiveAppend(history, op);
      history := history + [op];
      ghost var before := subs;
      var todo := subs.Keys;
      while todo != {}
        invariant todo <= before.Keys == subs.Keys
        invariant forall t :: t in before ==> subs[t] == if t in todo then before[t] else Blanked(before[t], c)
        invariant wildcards == old(wildcards) && history == old(history) + [op]
        decreases |todo|
      {
        var t :| t in todo;
        var v := BlankAll(subs[t], c);
        subs := subs[t := v];
        todo := todo - {t};
      }

      var wildNew := OtherWilds(wildcards, c);
      UnsubAllIndexes(before, subs, wildcards, live, c);
      wildcards := wildNew;
    }
  }

  // ----- how the index follows the requests --------------------------------

  lemma LookUp(subs: map<string, seq<Option<Conn>>>, wildcards: seq<Wild>, live: seq<Sub>, topic: string)
    requires Indexes(subs, wildcards, live)
    ensures wildcards == Wilds(live)
    ensures NonNil(if topic in subs then subs[topic] else []) == Exact(live, topic)
  {}

  lemma NoWildsMatch(parts: seq<string>)
    ensures Matching([], parts) == []
  {}

  /** Tombstones hide exactly the connection they replace. */
  lemma {:induction false} BlankedNonNil(slots: seq<Option<Conn>>, c: Conn)
    ensures NonNil(Blanked(slots, c)) == Without(NonNil(slots), c)
  {
    if slots != [] {
      var n := |slots| - 1;
      BlankedNonNil(slots[..n], c);
      assert Blanked(slots, c)[..n] == Blanked(slots[..n], c);
      if slots[n].Some? {
        FilterMapAppend(NonNil(slots[..n]), slots[n].value, Other(c));
      }
    }
  }

  lemma ExactAppend(live: seq<Sub>, s: Sub, t: string)
    ensures Exact(live + [s], t) == if s.filter == t && !IsWildcard(t) then Exact(live, t) + [s.c] else Exact(live, t)
  {
    FilterMapAppend(live, s, ExactFor(t));
  }

  lemma WildsAppend(live: seq<Sub>, s: Sub)
    ensures Wilds(live + [s]) ==
            if IsWildcard(s.filter) then Wilds(live) + [Wild(Split(s.filter), s.c)] else Wilds(live)
  {
    FilterMapAppend(live, s, ToWild());
  }

  lemma NonNilAppend(slots: seq<Option<Conn>>, c: Conn)
    ensures NonNil(slots + [Some(c)]) == NonNil(slots) + [c]
  {
    FilterMapAppend(slots, Some(c), Present());
  }

  lemma AddWild(subs: map<string, seq<Option<Conn>>>, wildcards: seq<Wild>, live: seq<Sub>, topic: string, c: Conn)
    requires Indexes(subs, wildcards, live) && IsWildcard(topic)
    ensures Indexes(subs, wildcards + [Wild(Split(topic), c)], live + [Sub(topic, c)])
  {
    hide Exact, Wilds, NonNil, Split, IsWildcard;
    forall t
      ensures Exact(live + [Sub(topic, c)], t) == Exact(live, t)
    {
      ExactAppend(live, Sub(topic, c), t);
    }
    WildsAppend(live, Sub(topic, c));
  }

  lemma AddExact(subs: map<string, seq<Option<Conn>>>, wildcards: seq<Wild>, live: seq<Sub>, topic: string, c: Conn,
                 slots: seq<Option<Conn>>)
    requires Indexes(subs, wildcards, live) && !IsWildcard(topic)
    requires slots == if topic in subs then subs[topic] else []
    ensures Indexes(subs[topic := slots + [Some(c)]], wildcards, live + [Sub(topic, c)])
  {
    NothingPresent();
    hide Exact, Wilds, NonNil, Split, IsWildcard;
    NonNilAppend(slots, c);
    forall t
      ensures Exact(live + [Sub(topic, c)], t) == if t == topic then Exact(live, t) + [c] else Exact(live, t)
    {
      ExactAppend(live, Sub(topic, c), t);
    }
    WildsAppend(live, Sub(topic, c));
  }

  lemma NothingPresent()
    ensures NonNil([]) == []
  {}

  lemma ExactAfterUnsub(live: seq<Sub>, topic: string, c: Conn, t: string)
    requires !IsWildcard(topic)
    ensures Exact(Survivors(live, Unsub(topic, c)), t) ==
            if t == topic then Without(Exact(live, t), c) else Exact(live, t)
  {
    var op := Unsub(topic, c);
    FilterMapTwice(live, Surviving(op), ExactFor(t));
    if t == topic {
      FilterMapTwice(live, ExactFor(t), Other(c));
      FilterMapSame(live, Then(Surviving(op), ExactFor(t)), Then(ExactFor(t), Other(c)));
    } else {
      FilterMapSame(live, Then(Surviving(op), ExactFor(t)), ExactFor(t));
    }
  }

  lemma WildsAfterUnsub(live: seq<Sub>, topic: string, c: Conn)
    ensures Wilds(Survivors(live, Unsub(topic, c))) == Wilds(live)
  {
    var op := Unsub(topic, c);
    FilterMapTwice(live, Surviving(op), ToWild());
    FilterMapSame(live, Then(Surviving(op), ToWild()), ToWild());
  }

  lemma ExactAfterUnsubAll(live: seq<Sub>, c: Conn, t: string)
    ensures Exact(Survivors(live, UnsubAll(c)), t) == Without(Exact(live, t), c)
  {
    var op := UnsubAll(c);
    FilterMapTwice(live, Surviving(op), ExactFor(t));
    FilterMapTwice(live, ExactFor(t), Other(c));
    FilterMapSame(live, Then(Surviving(op), ExactFor(t)), Then(ExactFor(t), Other(c)));
  }

  lemma WildsAfterUnsubAll(live: seq<Sub>, c: Conn)
    ensures Wilds(Survivors(live, UnsubAll(c))) == WildsWithout(Wilds(live), c)
  {
    var op := UnsubAll(c);
    FilterMapTwice(live, Surviving(op), ToWild());
    FilterMapTwice(live, ToWild(), OtherWild(c));
    FilterMapSame(live, Then(Surviving(op), ToWild()), Then(ToWild(), OtherWild(c)));
  }

  lemma UnsubExact(subs: map<string, seq<Option<Conn>>>, wildcards: seq<Wild>, live: seq<Sub>, topic: string, c: Conn)
    requires Indexes(subs, wildcards, live) && topic in subs
    ensures var slots, after := Blanked(subs[topic], c), Survivors(live, Unsub(topic, c));
            && Indexes(subs[topic := slots], wildcards, after)
            && (NonNil(slots) == [] ==> Indexes(subs - {topic}, wildcards, after))
  {
    hide Exact, Survivors, NonNil, Blanked;
    BlankedNonNil(subs[topic], c);
    forall t
      ensures Exact(Survivors(live, Unsub(topic, c)), t) ==
            if t == topic then Without(Exact(live, t), c) else Exact(live, t)
    {
      ExactAfterUnsub(live, topic, c, t);
    }
    WildsAfterUnsub(live, topic, c);
  }

  lemma UnsubAbsent(subs: map<string, seq<Option<Conn>>>, wildcards: seq<Wild>, live: seq<Sub>, topic: string, c: Conn)
    requires Indexes(subs, wildcards, live) && topic !in subs
    ensures Indexes(subs, wildcards, Survivors(live, Unsub(topic, c)))
  {
    if IsWildcard(topic) {
      NothingEnds(live, Unsub(topic, c));
    } else {
      forall t
        ensures Exact(Survivors(live, Unsub(topic, c)), t) == Exact(live, t)
      {
        ExactAfterUnsub(live, topic, c, t);
      }
      WildsAfterUnsub(live, topic, c);
    }
  }

  lemma UnsubAllIndexes(before: map<string, seq<Option<Conn>>>, after: map<string, seq<Option<Conn>>>,
                        wildcards: seq<Wild>, live: seq<Sub>, c: Conn)
    requires Indexes(before, wildcards, live) && after.Keys == before.Keys
    requires forall t :: t in before ==> after[t] == Blanked(before[t], c)
    ensures Indexes(after, WildsWithout(wildcards, c), Survivors(live, UnsubAll(c)))
  {
    hide Exact, Survivors, NonNil, Blanked;
    forall t
      ensures Exact(Survivors(live, UnsubAll(c)), t) == Without(Exact(live, t), c)
    {
      ExactAfterUnsubAll(live, c, t);
    }
    forall t | t in before
      ensures NonNil(after[t]) == Without(NonNil(before[t]), c)
    {
      BlankedNonNil(before[t], c);
    }
    WildsAfterUnsubAll(live, c);
  }

  lemma {:induction false} LiveAcceptable(h: seq<Op>, k: nat)
    requires k <= |h|
    ensures forall i :: 0 <= i < |LiveUpTo(h, k)| ==> Acceptable(LiveUpTo(h, k)[i].filter)
  {
    if k > 0 {
      LiveAcceptable(h, k - 1);
    }
  }

  /** Exact and wildcard matches together are the matching subscriptions. */
  lemma SubscribedSplits(h: seq<Op>, topic: string)
    ensures multiset(Exact(Live(h), topic) + Matching(Wilds(Live(h)), Split(topic)))
         == multiset(Subscribed(Live(h), topic))
  {
    hide Live, Split, Covers, Yields;
    var live, parts := Live(h), Split(topic);
    var byWild := Then(ToWild(), Covering(parts));
    FilterMapTwice(live, ToWild(), Covering(parts));
    LiveAcceptableAll(h);
    forall i | 0 <= i < |live|
      ensures || (ExactFor(topic)(live[i]) == None && byWild(live[i]) == Yielding(topic)(live[i]))
              || (byWild(live[i]) == None && ExactFor(topic)(live[i]) == Yielding(topic)(live[i]))
    {
      FilterYieldsIff(live[i].filter, topic);
    }
    FilterMapShared(live, ExactFor(topic), byWild, Yielding(topic));
  }

  lemma LiveAcceptableAll(h: seq<Op>)
    ensures forall i :: 0 <= i < |Live(h)| ==> Acceptable(Live(h)[i].filter)
  {
    LiveAcceptable(h, |h|);
  }

  lemma FilterYieldsIff(filter: string, topic: string)
    requires Acceptable(filter)
    ensures Yields(Split(filter), Split(topic)) <==>
            if IsWildcard(filter) then Covers(Split(filter), Split(topic)) else filter == topic
  {
    if !IsWildcard(filter) {
      PlainFilterMatchesItself(filter, topic);
    }
    MatchesIff(Split(filter), Split(topic));
  }

  lemma {:induction false} SurvivorsCount(live: seq<Sub>, op: Op, s: Sub)
    ensures multiset(Survivors(live, op))[s] == if Ends(op, s) then 0 else multiset(live)[s]
  {
    if live != [] {
      var n := |live| - 1;
      SurvivorsCount(live[..n], op, s);
      assert live == live[..n] + [live[n]];
      assert Survivors(live, op) == AppendOpt(Survivors(live[..n], op), Surviving(op)(live[n]));
    }
  }

  /** Subscribing adds one subscription, if the filter is acceptable, and leaves
      the others. */
  lemma LiveAfterAdd(h: seq<Op>, filter: string, c: Conn)
    ensures Live(h + [Op.Add(filter, c)]) ==
            if WildcardsStandAlone(filter) then Live(h) + [Sub(filter, c)] else Live(h)
  {
    hide Live;
    LiveAppend(h, Op.Add(filter, c));
    NothingEnds(Live(h), Op.Add(filter, c));
    AcceptableIff(filter);
  }

  /** Unsubscribing ends all subscriptions of the connection to the topic, unless
      it has a wildcard, and no others. */
  lemma LiveAfterUnsub(h: seq<Op>, filter: string, c: Conn, s: Sub)
    ensures multiset(Live(h + [Unsub(filter, c)]))[s] ==
            if s == Sub(filter, c) && '#' !in filter && '+' !in filter then 0 else multiset(Live(h))[s]
  {
    hide Live;
    LiveAppend(h, Unsub(filter, c));
    SurvivorsCount(Live(h), Unsub(filter, c), s);
  }

  /** A connection that is gone has no subscriptions left, and the others keep
      theirs. */
  lemma LiveAfterUnsubAll(h: seq<Op>, c: Conn, s: Sub)
    ensures multiset(Live(h + [UnsubAll(c)]))[s] == if s.c == c then 0 else multiset(Live(h))[s]
  {
    hide Live;
    LiveAppend(h, UnsubAll(c));
    SurvivorsCount(Live(h), UnsubAll(c), s);
  }

  /** Unsubscribing works exactly for filters without wildcards. */
  lemma UnsubRemovesIff(h: seq<Op>, filter: string, c: Conn)
    requires Sub(filter, c) in Live(h)
    ensures Sub(filter, c) !in Live(h + [Unsub(filter, c)]) <==> '#' !in filter && '+' !in filter
  {
    hide Live;
    LiveAfterUnsub(h, filter, c, Sub(filter, c));
    assert Sub(filter, c) in multiset(Live(h));
    assert Sub(filter, c) in Live(h + [Unsub(filter, c)]) <==>
           Sub(filter, c) in multiset(Live(h + [Unsub(filter, c)]));
  }

  /** A wildcard subscription that outlives its unsubscription. */
  lemma WildcardStays(c: Conn)
    ensures Sub("#", c) in Live([Op.Add("#", c)])
    ensures Sub("#", c) in Live([Op.Add("#", c), Unsub("#", c)])
  {
    var op := Op.Add("#", c);
    var s, parts := "#", Split([]);
    assert s[0] == '#' && s[1..] == [] && parts == [""];
    assert [s[0]] + parts[0] == s && parts[1..] == [];
    assert Split(s) == [s];
    assert Acceptable("#") && IsWildcard("#");
    LiveAppend([], op);
    assert [] + [op] == [op];
    assert Live([op])[0] == Sub("#", c);
    UnsubRemovesIff([op], "#", c);
    assert [op] + [Unsub("#", c)] == [op, Unsub("#", c)];
  }

  /** A filter with "#" after a level is found for the topics below that level
      and for the level itself, and for no other. */
  lemma BelowIsFound(c: Conn, a: string, topic: string)
    requires '/' !in a && '#' !in a && '+' !in a
    ensures Live([Op.Add(a + "/#", c)]) == [Sub(a + "/#", c)]
    ensures Subscribed(Live([Op.Add(a + "/#", c)]), topic) == if topic == a || a + "/" <= topic then [c] else []
  {
    var filter := a + "/#";
    SplitAtSlash(a, "#");
    SplitWithoutSlash(a);
    SplitWithoutSlash("#");
    assert filter == a + "/" + "#" && Split(filter) == [a, "#"];
    StandsAlone(a);
    hide Split, Live, WildcardsStandAlone, FilterMap, Yields;
    LiveAfterAdd([], filter, c);
    NothingLive();
    assert [] + [Op.Add(filter, c)] == [Op.Add(filter, c)];
    ValidIffStandAlone(filter);
    MatchesIff([a, "#"], Split(topic));
    CoversBelow(a, topic);
    FilterMapAppend([], Sub(filter, c), Yielding(topic));
    FilterMapNone([], Yielding(topic));
    assert [] + [Sub(filter, c)] == [Sub(filter, c)];
  }

  /** "+" after a level stands for exactly one more level. */
  lemma OneLevelIsCovered(a: string, topic: string)
    requires '/' !in a && '#' !in a && '+' !in a
    ensures Covers(Split(a + "/+"), Split(topic)) <==> a + "/" <= topic && '/' !in topic[|a| + 1..]
  {
    SplitAtSlash(a, "+");
    SplitWithoutSlash(a);
    SplitWithoutSlash("+");
    assert a + "/+" == a + "/" + "+" && [a] + ["+"] == [a, "+"];
    CoversPlus(a, Split(topic));
    BelowIff(a, topic);
    hide Covers, Split;
    if a + "/" <= topic {
      LevelsOf(topic[|a| + 1..]);
    }
  }

  lemma CoversPlus(a: string, parts: seq<string>)
    requires '#' !in a && '+' !in a
    ensures Covers([a, "+"], parts) <==> |parts| == 2 && parts[0] == a
  {
    assert a != "#" && a != "+" && [a, "+"][1..] == ["+"];
    if parts != [] {
      CoversOne(parts[1..]);
    }
  }

  lemma CoversOne(parts: seq<string>)
    ensures Covers(["+"], parts) <==> |parts| == 1
  {
    assert ["+"][1..] == [];
    assert |parts| == 1 ==> parts[1..] == [];
  }

  /** The first level of a topic, and what follows it. */
  lemma BelowIff(a: string, topic: string)
    requires '/' !in a
    ensures a + "/" <= topic <==> |Split(topic)| >= 2 && Split(topic)[0] == a
    ensures a + "/" <= topic ==> Split(topic) == [a] + Split(topic[|a| + 1..])
    ensures topic == a <==> Split(topic) == [a]
  {
    hide Split;
    JoinOfSplit(topic);
    SplitWithoutSlash(a);
    if a + "/" <= topic {
      assert topic == a + "/" + topic[|a| + 1..];
      SplitAtSlash(a, topic[|a| + 1..]);
    }
    if |Split(topic)| >= 2 && Split(topic)[0] == a {
      assert topic == a + "/" + Join(Split(topic)[1..]);
    }
  }

  lemma LevelsOf(s: string)
    ensures |Split(s)| == 1 <==> '/' !in s
  {
    if '/' in s {
      var p, t := FirstSlash(s);
      SplitAtSlash(p, t);
    } else {
      SplitWithoutSlash(s);
    }
  }

  lemma NothingLive()
    ensures Live([]) == []
  {}

  lemma StandsAlone(a: string)
    requires '#' !in a && '+' !in a
    ensures WildcardsStandAlone(a + "/#")
  {
    var s := a + "/#";
    forall i | 0 <= i < |a|
      ensures s[i] !in {'#', '+'}
    {
      assert s[i] == a[i];
    }
    assert s[|a|] == '/';
  }

  lemma CoversLevel(a: string, parts: seq<string>)
    requires '#' !in a && '+' !in a
    ensures Covers([a, "#"], parts) <==> parts != [] && parts[0] == a
  {
    assert a != "#" && a != "+" && [a, "#"][1..] == ["#"];
  }

  lemma CoversBelow(a: string, topic: string)
    requires '/' !in a && '#' !in a && '+' !in a
    ensures Covers([a, "#"], Split(topic)) <==> topic == a || a + "/" <= topic
  {
    CoversLevel(a, Split(topic));
    BelowIff(a, topic);
    hide Covers, Split;
    assert |Split(topic)| == 1 && Split(topic)[0] == a ==> Split(topic) == [a];
  }
}
