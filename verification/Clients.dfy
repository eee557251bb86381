/** The list of connections (`rena/src/clients.c`): a circular doubly linked list of nodes
with a requester, a victim (the server it talks to), or both. Each operation runs under
one lock, so it is one step. */
module Clients {
  import opened Wrappers
  import opened Sequences

  datatype ClientType = Invalid | Requester | Victim

  /** How much of a connection's buffer has been sent. */
  datatype Protocol = Protocol(bufferSent: nat, bufferUsed: nat)

  /** `http_sent_done` */
  predicate SentDone(protocol: Option<Protocol>) {
    protocol.None? || protocol.value.bufferSent >= protocol.value.bufferUsed
  }

  /** What still has to be sent of a buffer. */
  function Unsent<T>(buffer: seq<T>, sent: nat): seq<T> {
    if sent <= |buffer| then buffer[sent..] else []
  }

  lemma SentDoneIff<T>(p: Protocol, buffer: seq<T>)
    requires |buffer| == p.bufferUsed
    ensures SentDone(Some(p)) <==> Unsent(buffer, p.bufferSent) == []
    ensures SentDone(None)
  {
  }

  /** One side of a node. */
  class ClientInfo {
    var fd: int
    var ssl: bool
    var protocol: Option<Protocol>
    ghost var freed: bool
    ghost const home: Circle     // the node that points here
    ghost const side: ClientType

    constructor (fd: int, ghost home: Circle, ghost side: ClientType)
      ensures this.fd == fd && !ssl && protocol == None && !freed && this.home == home && this.side == side
    {
      this.fd, ssl, protocol, freed, this.home, this.side := fd, false, None, false, home, side;
    }

    /** `client_info_destroy`: hangs up, and frees the record if `deleteAll`. */
    method Destroy(deleteAll: bool)
      requires !freed
      modifies this
      ensures !ssl && fd == (if old(fd) >= 0 then -1 else old(fd))
      ensures freed == deleteAll && (!deleteAll ==> protocol == old(protocol))
    {
      ssl := false;
      if fd >= 0 {
        fd := -1;
      }
      if deleteAll {
        freed := true;
      }
    }
  }

  /** A victim whose socket is closed, with everything it sent passed on. */
  ghost predicate HungUp(v: ClientInfo)
    reads v
  {
    v.fd < 0 && SentDone(v.protocol)
  }

  lemma HungUpIff(v: ClientInfo)
    ensures HungUp(v) <==>
      v.fd < 0 && (v.protocol == None || v.protocol.value.bufferUsed <= v.protocol.value.bufferSent)
  {
  }

  class Circle {
    var next: Circle?
    var prev: Circle?
    var requester: ClientInfo?
    var victim: ClientInfo?
    ghost var freed: bool

    constructor ()
      ensures next == null && prev == null && requester == null && victim == null && !freed
    {
      next, prev, requester, victim, freed := null, null, null, null, false;
    }

    ghost function Infos(): (s: set<ClientInfo>)
      reads this`requester, this`victim
    {
      (if requester != null then {requester} else {}) + (if victim != null then {victim} else {})
    }

    /** At least one side, neither shared with another node, and nothing freed. */
    ghost predicate Live()
      reads this`freed, this`requester, this`victim, requester, victim
    {
      !freed && (requester != null || victim != null) && Own()
    }

    ghost predicate LiveIn(records: set<ClientInfo>)
      reads this`freed, this`requester, this`victim, records
    {
      Infos() <= records && Live()
    }

    lemma Apart(d: Circle)
      requires Live() && d.Live() && d != this
      ensures d.Infos() !! Infos()
      ensures d.requester !in Infos() && d.victim !in Infos()
    {
    }

    ghost predicate Own()
      reads this`requester, this`victim, requester, victim
    {
      && (requester != null ==> requester.home == this && requester.side == Requester && !requester.freed)
      && (victim != null ==> victim.home == this && victim.side == Victim && !victim.freed)
    }
  }

  class Position {
    var info: ClientInfo?
    var kind: ClientType
    var pos: Circle?

    constructor ()
      ensures info == null && kind == Invalid && pos == null
    {
      info, kind, pos := null, Invalid, null;
    }
  }

  ghost predicate Distinct(ring: seq<Circle>) {
    forall i, j :: 0 <= i < j < |ring| ==> ring[i] != ring[j]
  }

  /** The nodes are chained both ways, and round. */
  ghost predicate Linked(ring: seq<Circle>)
    reads (set c | c in ring)`next, (set c | c in ring)`prev
  {
    && Distinct(ring)
    && (forall i :: 0 <= i < |ring| ==> ring[i].next == ring[if i + 1 < |ring| then i + 1 else 0])
    && (forall i :: 0 <= i < |ring| ==> ring[i].prev == ring[if 0 < i then i - 1 else |ring| - 1])
  }

  /** The places around the ring. */
  function Succ(i: nat, n: nat): (j: nat)
    requires i < n
    ensures j < n
  {
    if i + 1 < n then i + 1 else 0
  }

  function Pred(i: nat, n: nat): (j: nat)
    requires i < n
    ensures j < n
  {
    if 0 < i then i - 1 else n - 1
  }

  /** The place in the ring of the `i`th node when the `k`th is gone. */
  function Skip(i: nat, k: nat): nat {
    if i < k then i else i + 1
  }

  lemma SkipAround(i: nat, k: nat, n: nat)
    requires k < n && i < n - 1
    ensures Skip(i, k) < n && Skip(i, k) != k
    ensures Skip(Succ(i, n - 1), k) == Succ(if Skip(i, k) == Pred(k, n) then k else Skip(i, k), n)
    ensures Skip(Pred(i, n - 1), k) == Pred(if Skip(i, k) == Succ(k, n) then k else Skip(i, k), n)
  {
  }

  class Clients {
    var cci: Circle?
    var qty: int
    ghost var ring: seq<Circle>

    ghost predicate Valid()
      reads this, set c | c in ring
      reads set c | c in ring :: c.requester, set c | c in ring :: c.victim
    {
      && qty == |ring|
      && cci == (if ring == [] then null else ring[0])
      && Linked(ring)
      && (forall c :: c in ring ==> c.Live())
    }

    constructor ()
      ensures Valid() && ring == []
    {
      cci, qty, ring := null, 0, [];
    }

    /** Puts a node before all others. */
    method LinkFirst(c: Circle)
      requires Linked(ring) && cci == (if ring == [] then null else ring[0]) && c !in ring
      modifies this`cci, this`ring, c`next, c`prev, (set d | d in ring)`next, (set d | d in ring)`prev
      ensures ring == [c] + old(ring) && cci == c && Linked(ring)
    {
      if cci != null {
        var last := cci.prev;
        assert last == ring[|ring| - 1];
        c.next := cci;
        c.prev := cci.prev;
        cci.prev.next := c;
        cci.prev := c;
        cci := c;
      } else {
        c.next := c;
        c.prev := c;
        cci := c;
      }
      ghost var was := ring;
      ring := [c] + ring;
      assert forall i :: 0 < i < |ring| ==> ring[i] == was[i - 1];
    }

    lemma AddedLive(c: Circle, was: seq<Circle>)
      requires ring == [c] + was && c.Live() && forall d :: d in was ==> d.Live()
      ensures forall d :: d in ring ==> d.Live()
    {
    }

    /** `clients_add`: a new node before all others. */
    method Add(t: ClientType, fd: int)
      requires Valid()
      modifies this, (set c | c in ring)`next, (set c | c in ring)`prev
      ensures Valid() && |ring| == |old(ring)| + 1 && ring[1..] == old(ring)
      ensures fresh(ring[0]) && fresh(ring[0].Infos())
      ensures if t == Requester
        then ring[0].victim == null && ring[0].requester != null && ring[0].requester.fd == fd
        else ring[0].requester == null && ring[0].victim != null && ring[0].victim.fd == fd
    {
      hide Linked;
      var c := new Circle();
      var info := new ClientInfo(fd, c, if t == Requester then Requester else Victim);
      if t == Requester {
        c.requester := info;
      } else {
        c.victim := info;
      }
      assert c.Live() && c !in ring;
      LinkFirst(c);
      qty := qty + 1;
      AddedLive(c, old(ring));
    }

    /** `clients_search_pointer_locked`: 0 when the node is in the list. */
    method SearchPointer(toSearch: Circle?) returns (ret: int)
      requires Valid()
      ensures ret == if toSearch in ring then 0 else 1
    {
      var aux := cci;
      if aux != null && toSearch != null {
        ghost var i := 0;
        while true
          invariant i < |ring| && aux == ring[i]
          invariant toSearch !in ring[..i]
          decreases |ring| - i
        {
          if aux == toSearch {
            return 0;
          }
          assert ring[..i + 1] == ring[..i] + [ring[i]];
          aux := aux.next;
          i := i + 1;
          assert aux == ring[if i < |ring| then i else 0];
          if aux == cci {
            break;
          }
        }
        assert i == |ring|;
        assert ring[..i] == ring;
      }
      return 1;
    }

    ghost predicate Has(c: Circle, fd: int)
      reads c, c.Infos()
    {
      (c.requester != null && c.requester.fd == fd) || (c.victim != null && c.victim.fd == fd)
    }

    /** `p` names the side of `c` that has the descriptor, the requester first. */
    ghost predicate Names(p: Position, c: Circle, fd: int)
      reads p, c, c.Infos()
    {
      && p.pos == c && Has(c, fd)
      && (if c.requester != null && c.requester.fd == fd
          then p.kind == Requester && p.info == c.requester
          else p.kind == Victim && p.info == c.victim)
    }

    /** `clients_search`: the first node with the descriptor, the requester's side first. */
    method Search(fd: int, out: Position) returns (ret: int)
      requires Valid()
      modifies out
      ensures ret == 1 ==> out.kind == Invalid && forall c :: c in ring ==> !Has(c, fd)
      ensures ret == 0 ==>
        exists i :: 0 <= i < |ring| && Names(out, ring[i], fd) && forall k :: 0 <= k < i ==> !Has(ring[k], fd)
      ensures ret == 0 || ret == 1
      ensures ret == 1 <==> forall c :: c in ring ==>
        (c.requester == null || c.requester.fd != fd) && (c.victim == null || c.victim.fd != fd)
      ensures ret == 0 ==> out.pos != null && out.pos in ring
      ensures ret == 0 ==> (
        if out.pos.requester != null && out.pos.requester.fd == fd
        then out.kind == Requester && out.info == out.pos.requester
        else out.kind == Victim && out.info == out.pos.victim && out.info != null && out.info.fd == fd)
    {
      out.info, out.kind, out.pos := null, Invalid, null;
      var aux := cci;
      if aux != null {
        ghost var i := 0;
        while true
          modifies out
          invariant i < |ring| && aux == ring[i] && Valid()
          invariant out.kind == Invalid
          invariant forall k :: 0 <= k < i ==> !Has(ring[k], fd)
          decreases |ring| - i
        {
          if aux.requester != null && aux.requester.fd == fd {
            out.kind, out.info, out.pos := Requester, aux.requester, aux;
            assert Names(out, ring[i], fd);
            return 0;
          }
          if aux.victim != null && aux.victim.fd == fd {
            out.kind, out.info, out.pos := Victim, aux.victim, aux;
            assert Names(out, ring[i], fd);
            return 0;
          }
          aux := aux.next;
          i := i + 1;
          assert aux == ring[if i < |ring| then i else 0];
          if aux == cci {
            break;
          }
        }
        assert i == |ring|;
      }
      return 1;
    }

    /** `clients_add_peer`: the missing side of a node. Whether the node is still in the list
    is not checked; the list is as before in either case. */
    method AddPeer(p: Position, fd: int) returns (ret: int)
      requires Valid()
      modifies if p.pos != null then {p.pos} else {}
      ensures Valid() && ring == old(ring)
      ensures ret == (
        if fd < 0 then -1
        else if p.pos == null || p.kind == Invalid then -2
        else if (if p.kind == Requester then old(p.pos.victim) else old(p.pos.requester)) != null then -3
        else 0)
      ensures ret != 0 && p.pos != null ==> p.pos.victim == old(p.pos.victim) && p.pos.requester == old(p.pos.requester)
      ensures ret == 0 && p.kind == Requester ==>
        && p.pos.next == old(p.pos.next) && p.pos.prev == old(p.pos.prev) && p.pos.requester == old(p.pos.requester)
        && p.pos.victim != null && fresh(p.pos.victim) && p.pos.victim.fd == fd
      ensures ret == 0 && p.kind == Victim ==>
        && p.pos.next == old(p.pos.next) && p.pos.prev == old(p.pos.prev) && p.pos.victim == old(p.pos.victim)
        && p.pos.requester != null && fresh(p.pos.requester) && p.pos.requester.fd == fd
    {
      hide Linked;
      if fd < 0 {
        return -1;
      }
      var c := p.pos;
      if c == null || p.kind == Invalid {
        return -2;
      }
      if p.kind == Requester {
        if c.victim != null {
          return -3;
        }
        var info := new ClientInfo(fd, c, Victim);
        c.victim := info;
      } else {
        if c.requester != null {
          return -3;
        }
        var info := new ClientInfo(fd, c, Requester);
        c.requester := info;
      }
      return 0;
    }

    /** Takes the `k`th node, which stands between two others or itself, out of the chain. */
    method Unlink(c: Circle, next: Circle, prev: Circle, ghost k: nat)
      requires Linked(ring) && cci == (if ring == [] then null else ring[0])
      requires k < |ring| && c == ring[k] && next == c.next && prev == c.prev
      modifies this`cci, this`ring, next`prev, prev`next
      ensures ring == Without(old(ring), k) && Linked(ring) && c !in ring
      ensures cci == (if ring == [] then null else ring[0])
    {
      hide Linked, Succ, Pred, Without, Distinct, LeadsPast, NextTo;
      Bridged(ring, k);
      Bridge(next, prev, k);
      StillAhead(ring, k);
      if cci == c {
        cci := if c != c.next then c.next else null;
      }
      FirstWithout(ring, k);
      LinkedWithout(ring, k);
      ring := Without(ring, k);
    }

    lemma StillAhead(ring: seq<Circle>, k: nat)
      requires k < |ring| && LeadsPast(ring, k, k)
      ensures ring[k].next == ring[Succ(k, |ring|)]
    {
    }

    method Bridge(next: Circle, prev: Circle, ghost k: nat)
      requires Distinct(ring) && k < |ring| && forall i :: 0 <= i < |ring| ==> NextTo(ring, i)
      requires next == ring[Succ(k, |ring|)] && prev == ring[Pred(k, |ring|)]
      modifies next`prev, prev`next
      ensures forall i :: 0 <= i < |ring| ==> LeadsPast(ring, k, i)
    {
      hide Linked, Succ, Pred, Distinct;
      next.prev := prev;
      prev.next := next;
      forall i | 0 <= i < |ring|
        ensures LeadsPast(ring, k, i)
      {
        assert old(NextTo(ring, i));
        Differ(ring, i, Pred(k, |ring|));
        Differ(ring, i, Succ(k, |ring|));
      }
    }

    /** The first node of the ring without the `k`th. */
    lemma FirstWithout(ring: seq<Circle>, k: nat)
      requires Distinct(ring) && k < |ring|
      ensures Without(ring, k) == [] <==> |ring| == 1
      ensures Without(ring, k) != [] ==> Without(ring, k)[0] == if k == 0 then ring[Succ(k, |ring|)] else ring[0]
      ensures ring[k] == ring[Succ(k, |ring|)] <==> |ring| == 1
      ensures ring[k] == ring[0] <==> k == 0
      ensures |ring| == 1 ==> Succ(k, |ring|) == Pred(k, |ring|) == k
      ensures Succ(k, |ring|) == k || Pred(k, |ring|) == k ==> |ring| == 1
    {
    }

    lemma Differ(ring: seq<Circle>, i: nat, j: nat)
      requires Distinct(ring) && i < |ring| && j < |ring|
      ensures ring[i] == ring[j] <==> i == j
    {
    }

    lemma Bridged(ring: seq<Circle>, k: nat)
      requires Linked(ring) && k < |ring|
      ensures Distinct(ring) && forall i :: 0 <= i < |ring| ==> NextTo(ring, i)
      ensures ring[k].next == ring[Succ(k, |ring|)] && ring[k].prev == ring[Pred(k, |ring|)]
    {
      forall i | 0 <= i < |ring|
        ensures NextTo(ring, i)
      {
        assert ring[i].next == ring[if i + 1 < |ring| then i + 1 else 0];
      }
    }

    /** The neighbours of the `i`th node when the `k`th is left out. */
    ghost predicate LeadsPast(ring: seq<Circle>, k: nat, i: nat)
      requires k < |ring| && i < |ring|
      reads ring[i]
    {
      && ring[i].next == ring[Succ(if i == Pred(k, |ring|) then k else i, |ring|)]
      && ring[i].prev == ring[Pred(if i == Succ(k, |ring|) then k else i, |ring|)]
    }

    /** The chain that leads past the `k`th node. */
    lemma LinkedWithout(ring: seq<Circle>, k: nat)
      requires k < |ring| && Distinct(ring)
      requires forall i :: 0 <= i < |ring| ==> LeadsPast(ring, k, i)
      ensures Linked(Without(ring, k)) && ring[k] !in Without(ring, k)
    {
      hide Linked, Succ, Pred, Without, Distinct, LeadsPast, NextTo;
      DistinctWithout(ring, k);
      var n := |ring|;
      forall i | 0 <= i < n - 1
        ensures NextTo(Without(ring, k), i)
      {
        SkipAround(i, k, n);
        NextSkips(ring, k, i);
      }
      LinkedIs(Without(ring, k));
    }

    lemma DistinctWithout(ring: seq<Circle>, k: nat)
      requires k < |ring| && Distinct(ring)
      ensures Distinct(Without(ring, k)) && ring[k] !in Without(ring, k)
    {
    }

    lemma NextSkips(ring: seq<Circle>, k: nat, i: nat)
      requires k < |ring| && i < |ring| - 1
      requires Skip(i, k) < |ring| && LeadsPast(ring, k, Skip(i, k))
      ensures NextTo(Without(ring, k), i)
    {
      hide Succ, Pred;
      SkipAround(i, k, |ring|);
      var r := Without(ring, k);
      assert forall m :: 0 <= m < |r| ==> r[m] == ring[Skip(m, k)];
      assert r[i] == ring[Skip(i, k)];
    }

    /** The neighbours of the `i`th node. */
    ghost predicate NextTo(ring: seq<Circle>, i: nat)
      requires i < |ring|
      reads ring[i]
    {
      ring[i].next == ring[Succ(i, |ring|)] && ring[i].prev == ring[Pred(i, |ring|)]
    }

    lemma LinkedIs(ring: seq<Circle>)
      requires Distinct(ring)
      requires forall i :: 0 <= i < |ring| ==> NextTo(ring, i)
      ensures Linked(ring)
    {
      forall i | 0 <= i < |ring|
        ensures ring[i].next == ring[Succ(i, |ring|)] && ring[i].prev == ring[Pred(i, |ring|)]
      {
        assert NextTo(ring, i);
      }
    }

    /** Takes a node that has lost both sides out of the list and frees it. */
    method Drop(c: Circle, ghost k: nat)
      requires qty == |ring| && Linked(ring) && cci == (if ring == [] then null else ring[0])
      requires k < |ring| && c == ring[k] && c.next != null && c.prev != null
      requires forall d :: d in ring && d != c ==> d.Live()
      modifies this, c.next`prev, c.prev`next, c`freed
      ensures Valid() && ring == Without(old(ring), k) && c.freed
    {
      hide Linked, Circle.Live, Circle.Own;
      Unlink(c, c.next, c.prev, k);
      c.freed := true;
      qty := qty - 1;
    }

    lemma StillLive(c: Circle)
      requires !c.freed && (c.requester != null || c.victim != null) && c.Own()
      ensures c.Live()
    {
    }

    lemma OthersApart(c: Circle)
      requires Valid() && c in ring
      ensures c.Live() && forall d :: d in ring && d != c ==>
        d.Live() && d.requester !in c.Infos() && d.victim !in c.Infos()
    {
      forall d | d in ring && d != c
        ensures d.Live() && d.requester !in c.Infos() && d.victim !in c.Infos()
      {
        c.Apart(d);
      }
    }

    lemma Neighbours(k: nat)
      requires Linked(ring) && k < |ring|
      ensures ring[k].next != null && ring[k].prev != null && ring[k].next in ring && ring[k].prev in ring
    {
      var n := |ring|;
      assert ring[k].next == ring[if k + 1 < n then k + 1 else 0]
        && ring[k].prev == ring[if 0 < k then k - 1 else n - 1];
    }

    /** The records of a deleted side: a requester goes with its victim; a victim alone
    only hangs up, and is freed when it had hung up before with everything sent. */
    static method DestroySides(c: Circle, kind: ClientType)
      requires c.Live() && kind != Invalid && (kind == Requester ==> c.requester != null)
      modifies c`requester, c`victim, c.Infos()
      ensures c.Own()
      ensures kind == Requester || old(c.requester) == null ==>
        c.requester == null && c.victim == null && forall i :: i in old(c.Infos()) ==> i.freed
      ensures kind == Victim && old(c.requester) != null ==>
        && c.requester == old(c.requester) && unchanged(c.requester)
        && c.victim == (if old(c.victim != null && HungUp(c.victim)) then null else old(c.victim))
        && (old(c.victim) != null ==>
          && old(c.victim).freed == old(HungUp(c.victim))
          && (c.victim != null ==> c.victim.fd < 0 && c.victim.protocol == old(c.victim.protocol)))
    {
      if kind == Requester {
        c.requester.Destroy(true);
        c.requester := null;
      }
      if kind == Victim || c.requester == null {
        var flag := c.requester == null;
        if c.victim != null {
          if c.victim.fd < 0 && SentDone(c.victim.protocol) {
            flag := true;
          }
          c.victim.Destroy(flag);
          if flag {
            c.victim := null;
          }
        }
      }
    }

    /** The part of `clients_del` for a node still in the list, the `k`th one. */
    method DelFound(p: Position, c: Circle, ghost k: nat)
      requires Valid() && k < |ring| && ring[k] == c == p.pos && p.kind != Invalid
      requires p.kind == Requester ==> c.requester != null
      modifies this, p, (set c | c in ring)`next, (set c | c in ring)`prev, c, c.Infos()
      ensures Valid()
      ensures old(p.kind == Requester || c.requester == null) ==>
        && ring == Without(old(ring), k) && c.freed && (forall i :: i in old(c.Infos()) ==> i.freed)
        && p.info == null && p.pos == null && p.kind == Invalid
      ensures old(p.kind == Victim && c.requester != null) ==>
        && unchanged(this, p) && !c.freed
        && c.requester == old(c.requester) && unchanged(c.requester)
        && c.victim == (if old(c.victim != null && HungUp(c.victim)) then null else old(c.victim))
        && (old(c.victim) != null ==>
          && old(c.victim).freed == old(HungUp(c.victim))
          && (c.victim != null ==> c.victim.fd < 0 && c.victim.protocol == old(c.victim.protocol)))
    {
      hide Linked, HungUp, Circle.Live, Circle.Own;
      OthersApart(c);
      DestroySides(c, p.kind);
      assert forall d :: d in ring && d != c ==> d.Live();
      if c.requester == null && c.victim == null {
        Neighbours(k);
        Drop(c, k);
        p.info := null;
        p.pos := null;
        p.kind := Invalid;
      } else {
        StillLive(c);
      }
    }

    /** `clients_del`: -1 for a position that names nothing, 1 for a node erased before. */
    method Del(p: Position) returns (ret: int)
      requires Valid()
      requires p.pos != null && p.pos in ring && p.kind == Requester ==> p.pos.requester != null
      modifies this, p, (set c | c in ring)`next, (set c | c in ring)`prev
      modifies if p.pos != null && p.pos in ring then {p.pos} + p.pos.Infos() else {}
      ensures Valid() && (ret == -1 || ret == 0 || ret == 1)
      ensures ret == -1 <==> old(p.info == null || p.pos == null || p.kind == Invalid)
      ensures ret == 1 ==> old(p.pos !in ring)
      ensures ret != 0 ==> unchanged(this, p) && forall c :: c in ring ==> unchanged(c)
      ensures ret == 0 ==> old(p.pos in ring)
      ensures ret == 0 && old(p.kind == Requester || p.pos.requester == null) ==>
        && (exists k :: 0 <= k < |old(ring)| && old(ring)[k] == old(p.pos) && ring == Without(old(ring), k))
        && old(p.pos).freed && (forall i :: i in old(p.pos.Infos()) ==> i.freed)
        && p.info == null && p.pos == null && p.kind == Invalid
      ensures ret == 0 && old(p.kind == Victim && p.pos.requester != null) ==>
        && unchanged(this, p) && !p.pos.freed
        && p.pos.requester == old(p.pos.requester) && unchanged(p.pos.requester)
        && p.pos.victim == (if old(p.pos.victim != null && HungUp(p.pos.victim)) then null else old(p.pos.victim))
        && (old(p.pos.victim) != null ==>
          && old(p.pos.victim).freed == old(HungUp(p.pos.victim))
          && (p.pos.victim != null ==> p.pos.victim.fd < 0 && p.pos.victim.protocol == old(p.pos.victim.protocol)))
    {
      hide Linked, HungUp;
      if p.info == null || p.pos == null || p.kind == Invalid {
        return -1;
      }
      var c := p.pos;
      var erasedBefore := SearchPointer(c);
      if erasedBefore == 0 {
        ghost var k :| 0 <= k < |ring| && ring[k] == c;
        DelFound(p, c, k);
        return 0;
      }
      return 1;
    }

    /** The last node no longer leads round. */
    static ghost predicate Open(nodes: seq<Circle>)
      reads (set c | c in nodes)`next
    {
      && (forall i, j :: 0 <= i < j < |nodes| ==> nodes[i] != nodes[j])
      && (forall i :: 0 <= i < |nodes| ==> nodes[i].next == if i + 1 < |nodes| then nodes[i + 1] else null)
    }

    method Cut()
      requires Linked(ring) && cci == (if ring == [] then null else ring[0])
      modifies (set c | c in ring)`next
      ensures Open(ring)
    {
      if cci != null {
        assert cci.prev == ring[|ring| - 1];
        cci.prev.next := null;
      }
    }

    /** Frees what is left of a node. Nothing is freed twice. */
    static method Free(aux: Circle)
      requires aux.Live()
      modifies aux`requester, aux`victim, aux`freed, aux.Infos()
      ensures aux.freed && aux.Infos() == {} && forall i :: i in old(aux.Infos()) ==> i.freed
    {
      if aux.requester != null {
        aux.requester.Destroy(true);
        aux.requester := null;
      }
      if aux.victim != null {
        aux.victim.Destroy(true);
        aux.victim := null;
      }
      aux.freed := true;
    }

    /** The nodes from the `k`th on are as they were, the others are freed; a record that is
    not freed is still some node's. */
    static ghost predicate FreedUpTo(nodes: seq<Circle>, k: nat, records: set<ClientInfo>)
      reads (set c | c in nodes)`requester, (set c | c in nodes)`victim, (set c | c in nodes)`freed, records
    {
      && k <= |nodes|
      && (forall j :: k <= j < |nodes| ==> nodes[j].LiveIn(records))
      && (forall j :: 0 <= j < k ==> nodes[j].freed && nodes[j].Infos() == {})
      && (forall i :: i in records && !i.freed ==> i.home in nodes && i in i.home.Infos())
    }

    static method FreeNext(aux: Circle, ghost nodes: seq<Circle>, ghost k: nat, ghost records: set<ClientInfo>)
      requires Open(nodes) && k < |nodes| && aux == nodes[k] && aux.Live()
      requires forall i :: i in records ==> i.home in nodes
      requires FreedUpTo(nodes, k, records)
      modifies aux`requester, aux`victim, aux`freed, aux.Infos()
      ensures FreedUpTo(nodes, k + 1, records)
    {
      forall j | k < j < |nodes|
        ensures nodes[j] != aux && nodes[j].requester !in aux.Infos() && nodes[j].victim !in aux.Infos()
      {
        aux.Apart(nodes[j]);
      }
      Free(aux);
    }

    /** Walks the opened chain, freeing each node when it has been left. `Free` is called on
    every node, and at most once on any: it accepts only what is not freed yet. */
    static method FreeAll(first: Circle?, ghost nodes: seq<Circle>, ghost records: set<ClientInfo>)
      requires Open(nodes) && first == (if nodes == [] then null else nodes[0])
      requires forall i :: i in records ==> i.home in nodes
      requires FreedUpTo(nodes, 0, records)
      modifies (set c | c in nodes)`requester, (set c | c in nodes)`victim, (set c | c in nodes)`freed, records
      ensures forall j :: 0 <= j < |nodes| ==> nodes[j].freed
      ensures forall i :: i in records ==> i.freed
    {
      hide Open, FreedUpTo, Circle.Live, Circle.Own;
      var node := first;
      ghost var k := 0;
      while node != null
        invariant k <= |nodes| && node == if k < |nodes| then nodes[k] else null
        invariant FreedUpTo(nodes, k, records)
        decreases |nodes| - k
      {
        var aux := node;
        LeftIsLive(nodes, k, records);
        node := node.next;
        FreeNext(aux, nodes, k, records);
        k := k + 1;
      }
      AllFreed(nodes, records);
    }

    static lemma LeftIsLive(nodes: seq<Circle>, k: nat, records: set<ClientInfo>)
      requires Open(nodes) && FreedUpTo(nodes, k, records) && k < |nodes|
      ensures nodes[k].Live() && nodes[k].Infos() <= records
      ensures nodes[k].next == if k + 1 < |nodes| then nodes[k + 1] else null
    {
    }

    static lemma AllFreed(nodes: seq<Circle>, records: set<ClientInfo>)
      requires FreedUpTo(nodes, |nodes|, records)
      ensures forall j :: 0 <= j < |nodes| ==> nodes[j].freed
      ensures forall i :: i in records ==> i.freed
    {
    }

    /** `clients_destroy`: visits each node once and frees it with its records. */
    method Destroy()
      requires Valid()
      modifies this, set c | c in ring
      modifies set c | c in ring :: c.requester, set c | c in ring :: c.victim
      ensures Valid() && ring == []
      ensures forall c :: c in old(ring) ==> c.freed && (forall i :: i in old(c.Infos()) ==> i.freed)
    {
      hide Linked, Open, FreedUpTo;
      ghost var nodes := ring;
      ghost var records := AllRecords();
      Cut();
      NothingFreed(records);
      FreeAll(cci, nodes, records);
      cci, qty, ring := null, 0, [];
      EmptyLinked();
    }

    lemma AllRecords() returns (records: set<ClientInfo>)
      requires forall c :: c in ring ==> c.Live()
      ensures forall c :: c in ring ==> c.Infos() <= records
      ensures forall i :: i in records ==> i.home in ring && i in i.home.Infos()
    {
      records := set c, i | c in ring && i in c.Infos() :: i;
    }

    lemma NothingFreed(records: set<ClientInfo>)
      requires forall c :: c in ring ==> c.Live() && c.Infos() <= records
      requires forall i :: i in records ==> i.home in ring && i in i.home.Infos()
      ensures FreedUpTo(ring, 0, records)
    {
    }

    lemma EmptyLinked()
      ensures Linked([])
    {
    }
  }
}
