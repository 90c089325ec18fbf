/** The link checker's registry of rate limiters, a map with a recency list, and its cache of results. The
    bucket levels at the time of an eviction are given by the set of domains whose bucket is full. */
module Throttle {
  import opened Basics

  type Domain = string

  /** What a domain maps to; it points back at its list element. */
  class DomainState {
    var lruElem: Element?

    constructor ()
      ensures lruElem == null
    {
      lruElem := null;
    }
  }

  class Element {
    const domain: Domain
    const state: DomainState

    constructor (domain: Domain, state: DomainState)
      ensures this.domain == domain && this.state == state
    {
      this.domain, this.state := domain, state;
    }
  }

  // ---------------------------------------------------------------- recency

  function Without<T>(s: seq<T>, k: nat): seq<T>
    requires k < |s|
  {
    s[..k] + s[k + 1..]
  }

  function Domains(lru: seq<Element>): (r: seq<Domain>)
    ensures |r| == |lru| && forall i :: 0 <= i < |lru| ==> r[i] == lru[i].domain
  {
    seq(|lru|, i requires 0 <= i < |lru| => lru[i].domain)
  }

  /** When a domain was last asked for: its last position in the history, or -1. */
  function LastUse(uses: seq<Domain>, d: Domain): (t: int)
    ensures -1 <= t < |uses|
    ensures t >= 0 ==> uses[t] == d
    ensures forall i :: t < i < |uses| ==> uses[i] != d
  {
    if uses == [] then -1
    else if uses[|uses| - 1] == d then |uses| - 1
    else LastUse(uses[..|uses| - 1], d)
  }

  /** The domains of the list, each last used before those in front of it. */
  ghost predicate ByRecency(order: seq<Domain>, uses: seq<Domain>) {
    && (forall i :: 0 <= i < |order| ==> LastUse(uses, order[i]) >= 0)
    && (forall i, j :: 0 <= i < j < |order| ==> LastUse(uses, order[i]) > LastUse(uses, order[j]))
  }

  lemma UseMovesToFront(uses: seq<Domain>, d: Domain)
    ensures LastUse(uses + [d], d) == |uses|
    ensures forall e :: e != d ==> LastUse(uses + [d], e) == LastUse(uses, e)
  {
    assert (uses + [d])[..|uses|] == uses;
  }

  lemma RecencyAfterUse(order: seq<Domain>, uses: seq<Domain>, d: Domain)
    requires ByRecency(order, uses) && d !in order
    ensures ByRecency([d] + order, uses + [d])
  {
    UseMovesToFront(uses, d);
    var front := [d] + order;
    assert forall i :: 0 < i < |front| ==> front[i] == order[i - 1] && front[i] in order;
  }

  lemma RecencyWithout(order: seq<Domain>, uses: seq<Domain>, k: nat)
    requires ByRecency(order, uses) && k < |order|
    ensures ByRecency(Without(order, k), uses) && order[k] !in Without(order, k)
  {
    var rest := Without(order, k);
    assert forall i :: 0 <= i < |rest| ==> rest[i] == order[if i < k then i else i + 1];
  }

  /** The position to give up: the least recently used full bucket, or the least recently used one when none
      is full. */
  ghost predicate IsVictim(order: seq<Domain>, full: set<Domain>, k: nat) {
    && k < |order|
    && (forall j :: k < j < |order| ==> order[j] !in full)
    && (order[k] in full || (k == |order| - 1 && forall j :: 0 <= j < |order| ==> order[j] !in full))
  }

  /** What that means for the domain given up. */
  lemma VictimIsLeastRecent(order: seq<Domain>, uses: seq<Domain>, full: set<Domain>, k: nat, d: Domain)
    requires ByRecency(order, uses) && IsVictim(order, full, k) && d in order && d != order[k]
    ensures d in full ==> order[k] in full && LastUse(uses, order[k]) < LastUse(uses, d)
    ensures order[k] !in full ==> LastUse(uses, order[k]) < LastUse(uses, d)
  {
    var i :| 0 <= i < |order| && order[i] == d;
  }

  // ---------------------------------------------------------------- the map and the list

  /** Map and list hold the same domains and states, and every state points at its own element. */
  ghost predicate Linked(entries: map<Domain, DomainState>, lru: seq<Element>)
    reads entries.Values
  {
    && (forall d :: d in entries ==>
          var e := entries[d].lruElem; e != null && e in lru && e.domain == d && e.state == entries[d])
    && (forall i :: 0 <= i < |lru| ==>
          lru[i].domain in entries && entries[lru[i].domain] == lru[i].state && lru[i].state.lruElem == lru[i])
  }

  lemma WithoutKeeps<T>(s: seq<T>, k: nat, x: T)
    requires k < |s| && x in s && x != s[k]
    ensures x in Without(s, k)
  {
    var i :| 0 <= i < |s| && s[i] == x;
    assert Without(s, k)[if i < k then i else i - 1] == x;
  }

  lemma LinkedWithout(entries: map<Domain, DomainState>, lru: seq<Element>, k: nat)
    requires Linked(entries, lru) && k < |lru|
    requires forall i :: 0 <= i < |lru| && i != k ==> lru[i].domain != lru[k].domain
    ensures Linked(entries - {lru[k].domain}, Without(lru, k))
  {
    var rest := Without(lru, k);
    var entries' := entries - {lru[k].domain};
    forall d | d in entries' ensures entries'[d].lruElem in rest {
      WithoutKeeps(lru, k, entries[d].lruElem);
    }
    forall i | 0 <= i < |rest| ensures rest[i].domain in entries' {
      assert rest[i] == lru[if i < k then i else i + 1];
    }
  }

  lemma LinkedReordered(entries: map<Domain, DomainState>, lru: seq<Element>, other: seq<Element>)
    requires Linked(entries, lru) && forall e :: e in lru <==> e in other
    ensures Linked(entries, other)
  {
    forall i | 0 <= i < |other| ensures other[i] in lru {
      assert other[i] in other;
    }
  }

  lemma LinkedFront(entries: map<Domain, DomainState>, lru: seq<Element>, e: Element)
    requires Linked(entries, lru) && e.domain !in entries && e.state.lruElem == e
    ensures Linked(entries[e.domain := e.state], [e] + lru)
  {
  }

  lemma MovedHasSame<T>(s: seq<T>, k: nat)
    requires k < |s|
    ensures forall x :: x in s <==> x in [s[k]] + Without(s, k)
  {
    forall x | x in s && x != s[k] ensures x in Without(s, k) {
      WithoutKeeps(s, k, x);
    }
  }

  lemma SizeWithout(entries: map<Domain, DomainState>, d: Domain)
    requires d in entries
    ensures |entries - {d}| == |entries| - 1
  {
    assert (entries - {d}).Keys == entries.Keys - {d};
  }

  lemma RecencyDistinct(order: seq<Domain>, uses: seq<Domain>)
    requires ByRecency(order, uses)
    ensures forall i, j :: 0 <= i < |order| && 0 <= j < |order| && i != j ==> order[i] != order[j]
  {
    forall i, j | 0 <= i < |order| && 0 <= j < |order| && i != j ensures order[i] != order[j] {
      assert LastUse(uses, order[i]) != LastUse(uses, order[j]);
    }
  }

  lemma RemovalKeeps(entries: map<Domain, DomainState>, lru: seq<Element>, uses: seq<Domain>, k: nat)
    requires Linked(entries, lru) && ByRecency(Domains(lru), uses) && k < |lru|
    ensures var d := lru[k].domain;
            && Linked(entries - {d}, Without(lru, k)) && ByRecency(Domains(Without(lru, k)), uses)
            && |entries - {d}| == |entries| - 1 && |Without(lru, k)| == |lru| - 1
  {
    hide Linked, ByRecency, Domains;
    RecencyWithout(Domains(lru), uses, k);
    RecencyDistinct(Domains(lru), uses);
    LinkedWithout(entries, lru, k);
    ListedIsMapped(entries, lru, k);
    SizeWithout(entries, lru[k].domain);
    DomainsWithout(lru, k);
  }

  lemma ListedIsMapped(entries: map<Domain, DomainState>, lru: seq<Element>, k: nat)
    requires Linked(entries, lru) && k < |lru|
    ensures lru[k].domain in entries
  {
  }

  lemma DomainsWithout(lru: seq<Element>, k: nat)
    requires k < |lru|
    ensures Domains(Without(lru, k)) == Without(Domains(lru), k)
    ensures Domains([lru[k]] + Without(lru, k)) == [lru[k].domain] + Without(Domains(lru), k)
  {
  }

  lemma LinkedElement(entries: map<Domain, DomainState>, lru: seq<Element>, d: Domain)
    requires Linked(entries, lru) && d in entries
    ensures var e := entries[d].lruElem; e != null && e in lru && e.domain == d
  {
  }

  lemma MoveKeeps(entries: map<Domain, DomainState>, lru: seq<Element>, uses: seq<Domain>, k: nat)
    requires Linked(entries, lru) && ByRecency(Domains(lru), uses) && k < |lru|
    ensures var moved := [lru[k]] + Without(lru, k);
            && Linked(entries, moved) && ByRecency(Domains(moved), uses + [lru[k].domain]) && |moved| == |lru|
  {
    hide Linked, ByRecency, Domains;
    var order := Domains(lru);
    RecencyWithout(order, uses, k);
    RecencyAfterUse(Without(order, k), uses, lru[k].domain);
    MovedHasSame(lru, k);
    LinkedReordered(entries, lru, [lru[k]] + Without(lru, k));
    DomainsWithout(lru, k);
  }

  lemma PushKeeps(entries: map<Domain, DomainState>, lru: seq<Element>, uses: seq<Domain>, e: Element)
    requires Linked(entries, lru) && ByRecency(Domains(lru), uses) && e.domain !in entries && e.state.lruElem == e
    ensures Linked(entries[e.domain := e.state], [e] + lru)
    ensures ByRecency(Domains([e] + lru), uses + [e.domain])
    ensures |entries[e.domain := e.state]| == |entries| + 1
  {
    hide *;
    NotListed(entries, lru, e.domain);
    RecencyAfterUse(Domains(lru), uses, e.domain);
    LinkedFront(entries, lru, e);
    DomainsFront(lru, e);
    SizeWith(entries, e.domain, e.state);
  }

  lemma NotListed(entries: map<Domain, DomainState>, lru: seq<Element>, d: Domain)
    requires Linked(entries, lru) && d !in entries
    ensures d !in Domains(lru)
  {
  }

  lemma DomainsFront(lru: seq<Element>, e: Element)
    ensures Domains([e] + lru) == [e.domain] + Domains(lru)
  {
  }

  lemma SizeWith(entries: map<Domain, DomainState>, d: Domain, state: DomainState)
    requires d !in entries
    ensures |entries[d := state]| == |entries| + 1
  {
    assert entries[d := state].Keys == entries.Keys + {d};
  }

  // ---------------------------------------------------------------- the registry

  class Registry {
    const cap: nat
    var entries: map<Domain, DomainState>
    var lru: seq<Element>                   // the front is the most recently used
    ghost var uses: seq<Domain>

    ghost predicate Valid()
      reads this, entries.Values
    {
      && cap > 0
      && Linked(entries, lru)
      && ByRecency(Domains(lru), uses)
      && |lru| <= cap && |entries| == |lru|
    }

    constructor (cap: nat)
      requires cap > 0
      ensures Valid() && lru == [] && entries == map[] && this.cap == cap
    {
      this.cap := cap;
      entries, lru, uses := map[], [], [];
    }

    /** Walks the list from the back looking for a full bucket; if there is none, the last entry goes. */
    method EvictLocked(full: set<Domain>) returns (ghost k: nat)
      requires Valid() && lru != []
      modifies this`entries, this`lru
      ensures Valid() && IsVictim(Domains(old(lru)), full, k) && k < |old(lru)|
      ensures lru == Without(old(lru), k) && entries == old(entries) - {old(lru)[k].domain}
    {
      hide Linked, ByRecency;
      var e := |lru| - 1;
      while e >= 0 && lru[e].domain !in full
        invariant -1 <= e < |lru|
        invariant forall j :: e < j < |lru| ==> lru[j].domain !in full
      {
        e := e - 1;
      }
      if e >= 0 {
        k := e;
        RemoveAt(e);
        return;
      }
      k := |lru| - 1;
      RemoveAt(|lru| - 1);
    }

    method RemoveAt(k: nat)
      requires Valid() && k < |lru|
      modifies this`entries, this`lru
      ensures Valid()
      ensures lru == Without(old(lru), k) && entries == old(entries) - {old(lru)[k].domain}
    {
      hide Linked, ByRecency, Domains;
      RemovalKeeps(entries, lru, uses, k);
      var d := lru[k].domain;
      lru := Without(lru, k);
      entries := entries - {d};
    }

    /** Asking for a domain. What it gives up for a new one is decided by IsVictim. */
    method Get(domain: Domain, full: set<Domain>) returns (st: DomainState, ghost k: nat)
      requires Valid()
      modifies this
      ensures Valid() && uses == old(uses) + [domain]
      ensures domain in entries && entries[domain] == st
      ensures domain in old(entries) ==>
                && entries == old(entries)
                && k < |old(lru)| && old(lru)[k].domain == domain
                && lru == [old(lru)[k]] + Without(old(lru), k)
      ensures domain !in old(entries) ==>
                && fresh(st) && lru != [] && lru[0].domain == domain
                && (|old(lru)| < cap ==> lru[1..] == old(lru) && entries == old(entries)[domain := st])
                && (|old(lru)| == cap ==>
                      && IsVictim(Domains(old(lru)), full, k)
                      && lru[1..] == Without(old(lru), k)
                      && entries == (old(entries) - {old(lru)[k].domain})[domain := st])
    {
      hide Linked, ByRecency, IsVictim;
      k := 0;
      if domain in entries {
        st := entries[domain];
        k := MoveToFront(domain);
        return;
      }
      if |entries| >= cap {
        k := EvictLocked(full);
      }
      assert |lru| < cap;
      st := new DomainState();
      var e := new Element(domain, st);
      st.lruElem := e;
      PushFront(e);
    }

    method MoveToFront(domain: Domain) returns (k: nat)
      requires Valid() && domain in entries
      modifies this`lru, this`uses
      ensures Valid() && uses == old(uses) + [domain]
      ensures k < |old(lru)| && old(lru)[k].domain == domain
      ensures lru == [old(lru)[k]] + Without(old(lru), k)
    {
      hide ByRecency, Domains;
      LinkedElement(entries, lru, domain);
      k := Position(lru, entries[domain].lruElem);
      hide Linked;
      MoveKeeps(entries, lru, uses, k);
      lru := [lru[k]] + Without(lru, k);
      uses := uses + [domain];
    }

    method PushFront(e: Element)
      requires Valid() && |lru| < cap && e.domain !in entries && e.state.lruElem == e
      modifies this`lru, this`entries, this`uses
      ensures Valid() && uses == old(uses) + [e.domain]
      ensures lru == [e] + old(lru) && entries == old(entries)[e.domain := e.state]
    {
      hide Linked, ByRecency, Domains;
      PushKeeps(entries, lru, uses, e);
      lru := [e] + lru;
      entries := entries[e.domain := e.state];
      uses := uses + [e.domain];
    }
  }

  function Position(lru: seq<Element>, e: Element?): (k: nat)
    requires e != null && e in lru
    ensures k < |lru| && lru[k] == e
  {
    if lru[0] == e then 0 else 1 + Position(lru[1..], e)
  }

  // ---------------------------------------------------------------- the result cache

  const RESULT_TTL: int := 60000

  datatype Cached<T> = Cached(link: T, expires: int)

  /** The cache holds results as they were put, and what is missing from it has expired. */
  ghost predicate Agrees<T>(entries: map<string, Cached<T>>, puts: map<string, Cached<T>>, now: int) {
    && (forall u :: u in entries ==> u in puts && puts[u] == entries[u])
    && (forall u :: u in puts && u !in entries ==> now > puts[u].expires)
  }

  lemma AgreesAfterPut<T>(entries: map<string, Cached<T>>, puts: map<string, Cached<T>>, now: int, u: string,
      c: Cached<T>)
    requires Agrees(entries, puts, now)
    ensures Agrees(entries[u := c], puts[u := c], now)
  {
  }

  class ResultCache<T(==)> {
    const threshold: nat
    var entries: map<string, Cached<T>>
    var now: int
    ghost var puts: map<string, Cached<T>>      // the last result put under each address

    ghost predicate Valid()
      reads this
    {
      Agrees(entries, puts, now)
    }

    constructor (threshold: nat)
      ensures Valid() && puts == map[] && entries == map[] && now == 0 && this.threshold == threshold
    {
      this.threshold := threshold;
      entries, now, puts := map[], 0, map[];
    }

    method Tick(elapsed: nat)
      requires Valid()
      modifies this`now
      ensures Valid() && now == old(now) + elapsed
    {
      now := now + elapsed;
    }

    /** The last result put under the address, if it was put in the last minute: sweeping never shows. */
    method Get(u: string) returns (r: Option<T>)
      requires Valid()
      modifies this`entries
      ensures Valid()
      ensures r == if u in puts && now <= puts[u].expires then Some(puts[u].link) else None
      ensures entries == if r.None? then old(entries) - {u} else old(entries)
    {
      if u !in entries {
        return None;
      }
      if now > entries[u].expires {
        entries := entries - {u};
        return None;
      }
      return Some(entries[u].link);
    }

    method Put(u: string, link: T)
      requires Valid()
      modifies this`entries, this`puts
      ensures Valid() && puts == old(puts)[u := Cached(link, now + RESULT_TTL)]
      ensures |entries| > threshold ==> forall v :: v in entries ==> now <= entries[v].expires
    {
      hide Agrees;
      AgreesAfterPut(entries, puts, now, u, Cached(link, now + RESULT_TTL));
      entries := entries[u := Cached(link, now + RESULT_TTL)];
      puts := puts[u := Cached(link, now + RESULT_TTL)];
      if |entries| > threshold {
        Sweep();
      }
    }

    /** Drops what has expired. */
    method Sweep()
      requires Valid()
      modifies this`entries
      ensures Valid() && forall v :: v in entries ==> now <= entries[v].expires
    {
      entries := map v | v in entries && now <= entries[v].expires :: entries[v];
    }
  }
}
