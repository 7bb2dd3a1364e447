/**
 * The reference-linked smart pointer that passes frames around. Handles to one object form a circular,
 * doubly linked ring threaded through the handles themselves; nothing is counted. Each method is proved
 * to do to the bindings and to the list of deletions exactly what a reference count would.
 */
module LinkedPtr {

  class Pointee {
    constructor () {
    }
  }

  ghost predicate Distinct<T>(s: seq<T>) {
    forall i, j :: 0 <= i < j < |s| ==> s[i] != s[j]
  }

  ghost function IndexOf<T>(s: seq<T>, x: T): (k: nat)
    requires x in s
    ensures k < |s| && s[k] == x
  {
    var k: nat :| k < |s| && s[k] == x;
    k
  }

  /** The live handles and the rings they form, the object of each ring, and all objects adopted and deleted so far. */
  datatype Registry = Registry(
    home: map<Handle, nat>, rings: map<nat, seq<Handle>>, owned: map<nat, Pointee?>, fresher: nat,
    adopted: set<Pointee>, deleted: seq<Pointee>)
  {
    ghost predicate RingOk(id: nat)
      requires id in rings
    {
      && id < fresher && rings[id] != [] && Distinct(rings[id])
      && forall h :: h in rings[id] ==> h in home && home[h] == id
    }

    ghost predicate Rings() {
      && rings.Keys == owned.Keys
      && (forall h :: h in home ==> home[h] in rings && h in rings[home[h]])
      && (forall id :: id in rings ==> RingOk(id))
    }

    ghost predicate Objects() {
      && (forall a, b :: a in owned && b in owned && a != b && owned[a] != null ==> owned[a] != owned[b])
      && (forall id :: id in owned && owned[id] != null ==> owned[id] in adopted && owned[id] !in deleted)
      && (forall p :: p in adopted ==> p in deleted || exists id :: id in owned && owned[id] == p)
      && (forall p :: p in deleted ==> p in adopted)
      && Distinct(deleted)
    }

    ghost predicate Valid() {
      Rings() && Objects()
    }

    /** What each live handle points at: all that a user of the handles can see. */
    ghost function Binding(): (b: map<Handle, Pointee?>) {
      map h | h in home && home[h] in owned :: owned[home[h]]
    }

    ghost function Ring(h: Handle): seq<Handle>
      requires Rings() && h in home
    {
      rings[home[h]]
    }

    ghost function Object(h: Handle): Pointee?
      requires Rings() && h in home
    {
      owned[home[h]]
    }

    ghost function Next(h: Handle): Handle
      requires Rings() && h in home
    {
      After(rings[home[h]], h)
    }

    ghost function Prev(h: Handle): Handle
      requires Rings() && h in home
    {
      Before(rings[home[h]], h)
    }

    ghost function AddRing(h: Handle, p: Pointee?): Registry {
      Registry(home[h := fresher], rings[fresher := [h]], owned[fresher := p], fresher + 1,
               if p == null then adopted else adopted + {p}, deleted)
    }

    ghost function InsertAfter(r: Handle, h: Handle): Registry
      requires Rings() && r in home
    {
      var ring, k := Ring(r), IndexOf(Ring(r), r);
      this.(home := home[h := home[r]], rings := rings[home[r] := Inserted(ring, k, h)])
    }

    ghost function Remove(h: Handle): Registry
      requires Rings() && h in home
    {
      var ring, k, id := Ring(h), IndexOf(Ring(h), h), home[h];
      if |ring| == 1 then
        this.(home := home - {h}, rings := rings - {id}, owned := owned - {id},
              deleted := if owned[id] == null then deleted else deleted + [owned[id]])
      else
        this.(home := home - {h}, rings := rings[id := Without(ring, k)])
    }

    ghost function Move(h: Handle, r: Handle): Registry
      requires Rings() && h in home && r in home && h != r
    {
      RemoveKeepsRings(this, h);
      Remove(h).InsertAfter(r, h)
    }
  }

  /** Some live handle other than h is bound to p. */
  ghost predicate SharedBeyond(binding: map<Handle, Pointee?>, h: Handle, p: Pointee?) {
    exists g :: g in binding && g != h && binding[g] == p
  }

  /** The deletions a reference count makes when h lets go of its object. */
  ghost function DeletedBy(binding: map<Handle, Pointee?>, h: Handle): seq<Pointee>
    requires h in binding
  {
    if binding[h] != null && !SharedBeyond(binding, h, binding[h]) then [binding[h]] else []
  }

  ghost function Inserted<T>(s: seq<T>, k: nat, x: T): seq<T>
    requires k < |s|
  {
    s[..k + 1] + [x] + s[k + 1..]
  }

  ghost function Without<T>(s: seq<T>, k: nat): seq<T>
    requires k < |s|
  {
    s[..k] + s[k + 1..]
  }

  lemma InsertedElements<T>(s: seq<T>, k: nat, x: T)
    requires k < |s| && Distinct(s) && x !in s
    ensures Distinct(Inserted(s, k, x))
    ensures forall y :: y in Inserted(s, k, x) <==> y == x || y in s
  {
    var t := Inserted(s, k, x);
    assert t[k + 1] == x;
    assert forall i :: 0 <= i < |s| ==> t[if i <= k then i else i + 1] == s[i];
  }

  lemma WithoutElements<T>(s: seq<T>, k: nat)
    requires k < |s| && Distinct(s)
    ensures Distinct(Without(s, k))
    ensures forall y :: y in Without(s, k) <==> y in s && y != s[k]
  {
    var t := Without(s, k);
    assert forall i :: 0 <= i < |s| && i != k ==> t[if i < k then i else i - 1] == s[i];
  }

  lemma AddRingKeeps(g: Registry, h: Handle, p: Pointee?)
    requires g.Valid() && h !in g.home && (p != null ==> p !in g.adopted)
    ensures g.AddRing(h, p).Valid()
    ensures g.AddRing(h, p).Binding() == g.Binding()[h := p]
  {
    AddRingRings(g, h, p);
    AddRingObjects(g, h, p);
    AddRingBinding(g, h, p);
  }

  lemma AddRingRings(g: Registry, h: Handle, p: Pointee?)
    requires g.Rings() && h !in g.home
    ensures g.fresher !in g.owned
    ensures g.AddRing(h, p).Rings()
  {
    var a := g.AddRing(h, p);
    assert g.fresher in g.rings ==> g.RingOk(g.fresher);
    forall id | id in a.rings ensures a.RingOk(id) {
      assert id != g.fresher ==> g.RingOk(id);
    }
  }

  lemma AddRingBinding(g: Registry, h: Handle, p: Pointee?)
    requires g.Rings() && g.fresher !in g.owned
    ensures g.AddRing(h, p).Binding() == g.Binding()[h := p]
  {
  }

  lemma AddRingObjects(g: Registry, h: Handle, p: Pointee?)
    requires g.Objects() && g.fresher !in g.owned && (p != null ==> p !in g.adopted)
    ensures g.AddRing(h, p).Objects()
  {
    var a := g.AddRing(h, p);
    forall q | q in a.adopted ensures q in a.deleted || exists id :: id in a.owned && a.owned[id] == q {
      if q == p {
        assert a.owned[g.fresher] == q;
      } else if q !in g.deleted {
        var id :| id in g.owned && g.owned[id] == q;
        assert a.owned[id] == q;
      }
    }
  }

  lemma InsertKeeps(g: Registry, r: Handle, h: Handle)
    requires g.Valid() && r in g.home && h !in g.home
    ensures g.InsertAfter(r, h).Valid()
    ensures g.InsertAfter(r, h).Binding() == g.Binding()[h := g.Binding()[r]]
  {
    InsertKeepsRings(g, r, h);
    InsertBinding(g, r, h);
  }

  lemma InsertKeepsRings(g: Registry, r: Handle, h: Handle)
    requires g.Rings() && r in g.home && h !in g.home
    ensures g.InsertAfter(r, h).Rings()
  {
    var a, id := g.InsertAfter(r, h), g.home[r];
    assert g.RingOk(id);
    InsertedElements(g.rings[id], IndexOf(g.rings[id], r), h);
    forall j | j in a.rings ensures a.RingOk(j) {
      assert g.RingOk(j);
    }
  }

  lemma InsertBinding(g: Registry, r: Handle, h: Handle)
    requires g.Rings() && r in g.home && h !in g.home
    ensures g.InsertAfter(r, h).Binding() == g.Binding()[h := g.Binding()[r]]
  {
  }

  lemma RemoveKeepsRings(g: Registry, h: Handle)
    requires g.Rings() && h in g.home
    ensures g.Remove(h).Rings()
  {
    var a, id := g.Remove(h), g.home[h];
    assert g.RingOk(id);
    WithoutElements(g.rings[id], IndexOf(g.rings[id], h));
    if |g.rings[id]| == 1 {
      assert g.rings[id] == [h];
    }
    forall j | j in a.rings ensures a.RingOk(j) {
      assert g.RingOk(j);
    }
  }

  lemma RemoveBinding(g: Registry, h: Handle)
    requires g.Rings() && h in g.home
    ensures g.Remove(h).Binding() == g.Binding() - {h}
  {
    var a, id := g.Remove(h), g.home[h];
    assert g.RingOk(id);
    if |g.rings[id]| == 1 {
      assert g.rings[id] == [h];
      forall x | x in g.home && x != h ensures g.home[x] != id {
      }
    }
  }

  /** A ring has one handle exactly when a reference count would stand at one. */
  lemma AloneIffUnshared(g: Registry, h: Handle)
    requires g.Valid() && h in g.home
    ensures g.Binding()[h] != null ==> (|g.Ring(h)| == 1 <==> !SharedBeyond(g.Binding(), h, g.Binding()[h]))
  {
    var ring, p := g.Ring(h), g.Binding()[h];
    assert g.RingOk(g.home[h]);
    if |ring| > 1 {
      var other := if ring[0] == h then ring[1] else ring[0];
      assert other in ring && other in g.Binding() && g.Binding()[other] == p;
    } else if p != null {
      forall x | x in g.Binding() && g.Binding()[x] == p ensures x == h {
        assert x in g.rings[g.home[x]];
      }
    }
  }

  lemma RemoveKeepsObjects(g: Registry, h: Handle)
    requires g.Valid() && h in g.home
    ensures g.Remove(h).Objects()
  {
    var a := g.Remove(h);
    forall p | p in a.adopted ensures p in a.deleted || exists id :: id in a.owned && a.owned[id] == p {
      if p !in g.deleted {
        var id :| id in g.owned && g.owned[id] == p;
        if id in a.owned {
          assert a.owned[id] == p;
        }
      }
    }
  }

  /** Taking a handle out of its ring deletes what the reference count would delete, and nothing twice. */
  lemma RemoveKeeps(g: Registry, h: Handle)
    requires g.Valid() && h in g.home
    ensures g.Remove(h).Valid()
    ensures g.Remove(h).Binding() == g.Binding() - {h}
    ensures g.Remove(h).deleted == g.deleted + DeletedBy(g.Binding(), h)
    ensures g.Remove(h).adopted == g.adopted
  {
    RemoveKeepsRings(g, h);
    RemoveKeepsObjects(g, h);
    RemoveBinding(g, h);
    AloneIffUnshared(g, h);
  }

  // ---------- neighbours on the ring ----------

  function Succ(i: nat, n: nat): nat {
    if i + 1 == n then 0 else i + 1
  }

  function Pred(i: nat, n: nat): int {
    if i == 0 then n - 1 else i - 1
  }

  ghost function After<T>(s: seq<T>, x: T): T
    requires x in s
  {
    s[Succ(IndexOf(s, x), |s|)]
  }

  ghost function Before<T>(s: seq<T>, x: T): T
    requires x in s
  {
    s[Pred(IndexOf(s, x), |s|)]
  }

  lemma OnlyIndex<T>(s: seq<T>, i: nat)
    requires Distinct(s) && i < |s|
    ensures IndexOf(s, s[i]) == i
  {
  }

  lemma InsertedItself<T>(s: seq<T>, k: nat, h: T)
    requires k < |s| && Distinct(s) && h !in s && Distinct(Inserted(s, k, h))
    ensures h in Inserted(s, k, h)
    ensures After(Inserted(s, k, h), h) == After(s, s[k])
    ensures Before(Inserted(s, k, h), h) == s[k]
  {
    var t := Inserted(s, k, h);
    assert t[k + 1] == h;
    OnlyIndex(t, k + 1);
    OnlyIndex(s, k);
  }

  /** Inserting h after s[k] changes the neighbours of s[k] and of the element that followed it, no others. */
  lemma InsertedNeighbours<T>(s: seq<T>, k: nat, h: T, x: T)
    requires k < |s| && Distinct(s) && h !in s && Distinct(Inserted(s, k, h))
    requires x in s
    ensures x in Inserted(s, k, h)
    ensures After(Inserted(s, k, h), x) == if x == s[k] then h else After(s, x)
    ensures Before(Inserted(s, k, h), x) == if x == After(s, s[k]) then h else Before(s, x)
  {
    var t, i := Inserted(s, k, h), IndexOf(s, x);
    var j := if i <= k then i else i + 1;
    assert t[j] == x;
    OnlyIndex(t, j);
    OnlyIndex(s, k);
    assert x == After(s, s[k]) <==> i == Succ(k, |s|);
  }

  /** Taking s[k] out joins its two neighbours and touches no other element. */
  lemma WithoutNeighbours<T>(s: seq<T>, k: nat, x: T)
    requires k < |s| && Distinct(s) && Distinct(Without(s, k))
    requires x in s && x != s[k]
    ensures x in Without(s, k)
    ensures After(Without(s, k), x) == if x == Before(s, s[k]) then After(s, s[k]) else After(s, x)
    ensures Before(Without(s, k), x) == if x == After(s, s[k]) then Before(s, s[k]) else Before(s, x)
  {
    var t, i := Without(s, k), IndexOf(s, x);
    var j := if i < k then i else i - 1;
    assert t[j] == x;
    OnlyIndex(t, j);
    OnlyIndex(s, k);
    assert x == After(s, s[k]) <==> i == Succ(k, |s|);
    assert x == Before(s, s[k]) <==> i == Pred(k, |s|);
  }

  lemma NeighbourIsLive(g: Registry, h: Handle)
    requires g.Rings() && h in g.home
    ensures g.Next(h) in g.home && g.home[g.Next(h)] == g.home[h]
    ensures g.Prev(h) in g.home && g.home[g.Prev(h)] == g.home[h]
  {
    assert g.RingOk(g.home[h]);
  }

  lemma AddRingLinks(g: Registry, h: Handle, p: Pointee?, x: Handle)
    requires g.Rings() && h !in g.home && g.fresher !in g.owned && g.AddRing(h, p).Rings()
    requires x in g.home || x == h
    ensures g.AddRing(h, p).Object(x) == (if x == h then p else g.Object(x))
    ensures g.AddRing(h, p).Next(x) == (if x == h then h else g.Next(x))
    ensures g.AddRing(h, p).Prev(x) == (if x == h then h else g.Prev(x))
  {
  }

  lemma InsertLinks(g: Registry, r: Handle, h: Handle, x: Handle)
    requires g.Rings() && r in g.home && h !in g.home && g.InsertAfter(r, h).Rings()
    requires x in g.home || x == h
    ensures g.InsertAfter(r, h).Object(x) == (if x == h then g.Object(r) else g.Object(x))
    ensures g.InsertAfter(r, h).Next(x) == (if x == h then g.Next(r) else if x == r then h else g.Next(x))
    ensures g.InsertAfter(r, h).Prev(x) == (if x == h then r else if x == g.Next(r) then h else g.Prev(x))
  {
    var id := g.home[r];
    var ring, k := g.rings[id], IndexOf(g.rings[id], r);
    assert g.RingOk(id) && g.InsertAfter(r, h).RingOk(id);
    NeighbourIsLive(g, r);
    if x == h {
      InsertedItself(ring, k, h);
    } else if g.home[x] == id {
      InsertedNeighbours(ring, k, h, x);
    }
  }

  lemma RemoveLinks(g: Registry, h: Handle, x: Handle)
    requires g.Rings() && h in g.home && g.Remove(h).Rings()
    requires x in g.home && x != h
    ensures g.Remove(h).Object(x) == g.Object(x)
    ensures g.Remove(h).Next(x) == (if x == g.Prev(h) then g.Next(h) else g.Next(x))
    ensures g.Remove(h).Prev(x) == (if x == g.Next(h) then g.Prev(h) else g.Prev(x))
  {
    var id := g.home[h];
    var ring, k := g.rings[id], IndexOf(g.rings[id], h);
    assert g.RingOk(id);
    NeighbourIsLive(g, h);
    if g.home[x] == id {
      assert |ring| > 1;
      assert g.Remove(h).RingOk(id);
      WithoutNeighbours(ring, k, x);
    }
  }

  // ---------- the handles ----------

  /** The handle's three pointers are what the registry says. */
  ghost predicate Placed(g: Registry, h: Handle)
    requires g.Rings() && h in g.home
    reads h
  {
    h.itsPtr == g.Object(h) && h.itsNext == g.Next(h) && h.itsPrev == g.Prev(h)
  }

  /** The pointers in the heap are the rings of the registry. */
  ghost predicate AllPlaced(g: Registry)
    requires g.Rings()
    reads g.home.Keys
  {
    forall h :: h in g.home ==> Placed(g, h)
  }

  /** After the writes of acquire every handle is placed as the new registry says. */
  lemma AcquirePlaces(g: Registry, r: Handle, h: Handle)
    requires g.Valid() && r in g.home && h !in g.home
    requires forall x :: x in g.home ==> x.itsPtr == g.Object(x)
    requires forall x :: x in g.home && x != r ==> x.itsNext == g.Next(x)
    requires forall x :: x in g.home && x != g.Next(r) ==> x.itsPrev == g.Prev(x)
    requires r.itsNext == h
    requires g.Next(r).itsPrev == h
    requires h.itsPtr == g.Object(r) && h.itsNext == g.Next(r) && h.itsPrev == r
    ensures g.InsertAfter(r, h).Valid()
    ensures AllPlaced(g.InsertAfter(r, h))
  {
    InsertKeeps(g, r, h);
    var a := g.InsertAfter(r, h);
    forall x | x in a.home ensures Placed(a, x) {
      InsertLinks(g, r, h, x);
    }
  }

  lemma AdoptPlaces(g: Registry, h: Handle, p: Pointee?)
    requires g.Valid() && AllPlaced(g) && h !in g.home && (p != null ==> p !in g.adopted)
    requires h.itsPtr == p && h.itsNext == h && h.itsPrev == h
    ensures g.AddRing(h, p).Valid()
    ensures AllPlaced(g.AddRing(h, p))
  {
    AddRingKeeps(g, h, p);
    AddRingRings(g, h, p);
    var a := g.AddRing(h, p);
    forall x | x in a.home ensures Placed(a, x) {
      AddRingLinks(g, h, p, x);
      assert x == h || Placed(g, x);
    }
  }

  /** After the writes of release the remaining handles are placed. */
  lemma ReleasePlaces(g: Registry, h: Handle)
    requires g.Valid() && h in g.home
    requires forall x :: x in g.home && x != h ==> x.itsPtr == g.Object(x)
    requires forall x :: x in g.home && x != h && x != g.Prev(h) ==> x.itsNext == g.Next(x)
    requires forall x :: x in g.home && x != h && x != g.Next(h) ==> x.itsPrev == g.Prev(x)
    requires g.Prev(h) != h ==> g.Prev(h).itsNext == g.Next(h)
    requires g.Next(h) != h ==> g.Next(h).itsPrev == g.Prev(h)
    ensures g.Remove(h).Valid()
    ensures AllPlaced(g.Remove(h))
  {
    RemoveKeeps(g, h);
    var a := g.Remove(h);
    forall x | x in a.home ensures Placed(a, x) {
      RemoveLinks(g, h, x);
    }
  }

  class World {
    ghost var reg: Registry

    ghost constructor ()
      ensures Valid() && reg == Registry(map[], map[], map[], 0, {}, [])
    {
      reg := Registry(map[], map[], map[], 0, {}, []);
    }

    ghost predicate Valid()
      reads this, reg.home.Keys
    {
      reg.Valid() && AllPlaced(reg)
    }
  }

  class Handle {
    var itsPtr: Pointee?
    var itsPrev: Handle?
    var itsNext: Handle?

    constructor Adopt(p: Pointee?, ghost w: World)
      requires w.Valid() && (p != null ==> p !in w.reg.adopted)
      modifies w
      ensures w.Valid() && this !in old(w.reg.home)
      ensures w.reg == old(w.reg).AddRing(this, p)
    {
      itsPtr := p;
      itsPrev, itsNext := this, this;
      new;
      ghost var g := w.reg;
      w.reg := g.AddRing(this, p);
      AdoptPlaces(g, this, p);
    }

    constructor Copy(r: Handle, ghost w: World)
      requires w.Valid() && r in w.reg.home
      modifies w, w.reg.home.Keys
      ensures w.Valid() && this !in old(w.reg.home)
      ensures w.reg == old(w.reg).InsertAfter(r, this)
    {
      itsPtr, itsPrev, itsNext := null, null, null;
      new;
      Enter(r, w);
    }

    method Enter(r: Handle, ghost w: World)
      requires w.Valid() && r in w.reg.home && this !in w.reg.home
      modifies w, this, w.reg.home.Keys
      ensures w.Valid()
      ensures w.reg == old(w.reg).InsertAfter(r, this)
    {
      ghost var g := w.reg;
      NeighbourIsLive(g, r);
      assert forall x :: x in g.home ==> Placed(g, x);
      w.reg := g.InsertAfter(r, this);
      Acquire(r);
      AcquirePlaces(g, r, this);
    }

    /** Inserts this handle into r's list: the five pointer writes. */
    method Acquire(r: Handle)
      requires r != this && r.itsNext != null && r.itsNext != this
      modifies this, r`itsNext, r.itsNext`itsPrev
      ensures itsPtr == old(r.itsPtr) && itsNext == old(r.itsNext) && itsPrev == r
      ensures r.itsNext == this && itsNext.itsPrev == this
    {
      itsPtr := r.itsPtr;
      itsNext := r.itsNext;
      itsNext.itsPrev := this;
      itsPrev := r;
      r.itsNext := this;
    }

    function Unique(): bool
      reads this
    {
      if itsPrev != null then itsPrev == this else true
    }

    /** Takes this handle off its list, deleting the object when it was alone; gone is what was deleted. */
    method Release() returns (ghost gone: Pointee?)
      requires itsPrev != null && itsNext != null && (itsPrev == this <==> itsNext == this)
      modifies this, itsPrev`itsNext, itsNext`itsPrev
      ensures itsPtr == null
      ensures gone == if old(itsPrev) == this then old(itsPtr) else null
      ensures old(itsPrev) != this ==> old(itsPrev).itsNext == old(itsNext) && old(itsNext).itsPrev == old(itsPrev)
    {
      if Unique() {
        gone := itsPtr;
      } else {
        gone := null;
        itsPrev.itsNext := itsNext;
        itsNext.itsPrev := itsPrev;
        itsPrev, itsNext := null, null;
      }
      itsPtr := null;
    }

    method Leave(ghost w: World)
      requires w.Valid() && this in w.reg.home
      modifies w, w.reg.home.Keys
      ensures w.Valid()
      ensures w.reg == old(w.reg).Remove(this)
    {
      ghost var g := w.reg;
      NeighbourIsLive(g, this);
      OwnNeighbour(g, this);
      assert forall x :: x in g.home ==> Placed(g, x);
      w.reg := g.Remove(this);
      ghost var gone := Release();
      assert w.reg.deleted == g.deleted + if gone == null then [] else [gone];
      ReleasePlaces(g, this);
    }

    method Destroy(ghost w: World)
      requires w.Valid() && this in w.reg.home
      modifies w, w.reg.home.Keys
      ensures w.Valid() && this !in w.reg.home
      ensures w.reg == old(w.reg).Remove(this)
    {
      Leave(w);
    }

    method Assign(r: Handle, ghost w: World)
      requires w.Valid() && this in w.reg.home && r in w.reg.home
      modifies w, w.reg.home.Keys
      ensures w.Valid()
      ensures w.reg == if this == r then old(w.reg) else old(w.reg).Move(this, r)
    {
      if this != r {
        Leave(w);
        Enter(r, w);
      }
    }
  }

  /** A handle is its own neighbour exactly when it is alone. */
  lemma OwnNeighbour(g: Registry, h: Handle)
    requires g.Rings() && h in g.home
    ensures g.Prev(h) == h <==> |g.Ring(h)| == 1
    ensures g.Next(h) == h <==> |g.Ring(h)| == 1
  {
    assert g.RingOk(g.home[h]);
  }

  /** unique() tells whether the handle is alone on its ring; for an object, whether no other handle holds it. */
  lemma UniqueMeansAlone(w: World, h: Handle)
    requires w.Valid() && h in w.reg.home
    ensures h.Unique() <==> |w.reg.Ring(h)| == 1
    ensures h.itsPtr != null ==> (h.Unique() <==> !SharedBeyond(w.reg.Binding(), h, h.itsPtr))
  {
    assert Placed(w.reg, h);
    OwnNeighbour(w.reg, h);
    AloneIffUnshared(w.reg, h);
  }

  // ---------- whole runs ----------

  datatype Op =
    | Adopting(h: Handle, p: Pointee?)
    | Copying(h: Handle, r: Handle)
    | Assigning(h: Handle, r: Handle)
    | Destroying(h: Handle)

  /** What the program must respect: constructors run on fresh storage, a raw pointer is given away once. */
  ghost predicate Legal(g: Registry, op: Op) {
    match op
    case Adopting(h, p) => h !in g.home && (p != null ==> p !in g.adopted)
    case Copying(h, r) => h !in g.home && r in g.home
    case Assigning(h, r) => h in g.home && r in g.home
    case Destroying(h) => h in g.home
  }

  ghost function Apply(g: Registry, op: Op): (a: Registry)
    requires g.Valid() && Legal(g, op)
  {
    match op
    case Adopting(h, p) => g.AddRing(h, p)
    case Copying(h, r) => g.InsertAfter(r, h)
    case Assigning(h, r) => if h == r then g else g.Move(h, r)
    case Destroying(h) => g.Remove(h)
  }

  lemma MoveKeeps(g: Registry, h: Handle, r: Handle)
    requires g.Valid() && h in g.home && r in g.home && h != r
    ensures g.Move(h, r).Valid()
    ensures g.Move(h, r).Binding() == g.Binding()[h := g.Binding()[r]]
    ensures g.Move(h, r).deleted == g.deleted + DeletedBy(g.Binding(), h)
    ensures g.Move(h, r).adopted == g.adopted
  {
    RemoveKeeps(g, h);
    InsertKeeps(g.Remove(h), r, h);
    Rebind(g.Binding(), h, g.Binding()[r]);
  }

  lemma Rebind<K, V>(b: map<K, V>, h: K, v: V)
    ensures (b - {h})[h := v] == b[h := v]
  {
  }

  /** Reference semantics: plain bindings, and an object deleted when its last binding goes. */
  datatype Counted = Counted(binding: map<Handle, Pointee?>, adopted: set<Pointee>, deleted: seq<Pointee>)

  ghost function Count(c: Counted, op: Op): Counted {
    match op
    case Adopting(h, p) =>
      Counted(c.binding[h := p], if p == null then c.adopted else c.adopted + {p}, c.deleted)
    case Copying(h, r) =>
      if r in c.binding then c.(binding := c.binding[h := c.binding[r]]) else c
    case Assigning(h, r) =>
      if h == r || h !in c.binding || r !in c.binding then c
      else Counted(c.binding[h := c.binding[r]], c.adopted, c.deleted + DeletedBy(c.binding, h))
    case Destroying(h) =>
      if h !in c.binding then c
      else Counted(c.binding - {h}, c.adopted, c.deleted + DeletedBy(c.binding, h))
  }

  ghost function View(g: Registry): Counted {
    Counted(g.Binding(), g.adopted, g.deleted)
  }

  /** Every operation on the rings does what counting would do. */
  lemma ApplyRefines(g: Registry, op: Op)
    requires g.Valid() && Legal(g, op)
    ensures Apply(g, op).Valid()
    ensures View(Apply(g, op)) == Count(View(g), op)
  {
    match op
    case Adopting(h, p) =>
      AddRingKeeps(g, h, p);
    case Copying(h, r) =>
      InsertKeeps(g, r, h);
    case Assigning(h, r) =>
      if h != r {
        MoveKeeps(g, h, r);
      }
    case Destroying(h) =>
      RemoveKeeps(g, h);
  }

  ghost predicate LegalRun(g: Registry, ops: seq<Op>)
    requires g.Valid()
    decreases |ops|
  {
    ops == [] || (Legal(g, ops[0]) && (ApplyRefines(g, ops[0]); LegalRun(Apply(g, ops[0]), ops[1..])))
  }

  ghost function Run(g: Registry, ops: seq<Op>): Registry
    requires g.Valid() && LegalRun(g, ops)
    decreases |ops|
  {
    if ops == [] then g else ApplyRefines(g, ops[0]); Run(Apply(g, ops[0]), ops[1..])
  }

  ghost function CountRun(c: Counted, ops: seq<Op>): Counted
    decreases |ops|
  {
    if ops == [] then c else CountRun(Count(c, ops[0]), ops[1..])
  }

  /** No object is deleted twice, and the deleted objects are exactly those adopted that no live handle holds. */
  ghost predicate Safe(c: Counted) {
    && Distinct(c.deleted)
    && (forall p :: p in c.deleted ==> p in c.adopted)
    && (forall p :: p in c.adopted ==> (p in c.deleted <==> forall h :: h in c.binding ==> c.binding[h] != p))
  }

  lemma ValidIsSafe(g: Registry)
    requires g.Valid()
    ensures Safe(View(g))
  {
    forall p | p in g.adopted
      ensures p in g.deleted <==> forall h :: h in g.Binding() ==> g.Binding()[h] != p
    {
      if p !in g.deleted {
        var id :| id in g.owned && g.owned[id] == p;
        assert g.RingOk(id);
        var h := g.rings[id][0];
        assert h in g.rings[id] && g.Binding()[h] == p;
      }
    }
  }

  /**
   * In every run the rings behave as counts, stay well formed, and delete each object exactly once, when its last
   * handle goes.
   */
  lemma {:induction false} RunRefines(g: Registry, ops: seq<Op>)
    requires g.Valid() && LegalRun(g, ops)
    ensures Run(g, ops).Valid()
    ensures View(Run(g, ops)) == CountRun(View(g), ops)
    ensures Safe(CountRun(View(g), ops))
    decreases |ops|
  {
    if ops == [] {
      ValidIsSafe(g);
    } else {
      ApplyRefines(g, ops[0]);
      RunRefines(Apply(g, ops[0]), ops[1..]);
    }
  }
}
