/** Live resources per client address, src/nat64/persource.go. */
module PerSource {
  import opened Octets

  datatype Kind = Udp | Tcp

  datatype Counts = Counts(udp: int, tcp: int) {
    function Of(kind: Kind): int {
      match kind
      case Udp => udp
      case Tcp => tcp
    }
    function Plus(kind: Kind, d: int): Counts {
      match kind
      case Udp => Counts(udp + d, tcp)
      case Tcp => Counts(udp, tcp + d)
    }
  }

  type Table = map<Addr6, Counts>

  function CountOf(t: Table, src: Addr6, kind: Kind): int {
    if src in t then t[src].Of(kind) else 0
  }

  function Added(t: Table, src: Addr6, kind: Kind): Table {
    t[src := (if src in t then t[src] else Counts(0, 0)).Plus(kind, 1)]
  }

  function Removed(t: Table, src: Addr6, kind: Kind): Table {
    if src !in t || t[src].Of(kind) <= 0 then t
    else
      var c := t[src].Plus(kind, -1);
      if c == Counts(0, 0) then t - {src} else t[src := c]
  }

  /** Only sources with something live have an entry. */
  ghost predicate Pruned(t: Table) {
    forall a :: a in t ==> t[a].udp >= 0 && t[a].tcp >= 0 && t[a] != Counts(0, 0)
  }

  lemma AddedCounts(t: Table, src: Addr6, kind: Kind)
    requires Pruned(t)
    ensures Pruned(Added(t, src, kind))
    ensures forall a, k :: CountOf(Added(t, src, kind), a, k)
                        == CountOf(t, a, k) + if a == src && k == kind then 1 else 0
  {
  }

  lemma RemovedCounts(t: Table, src: Addr6, kind: Kind)
    requires Pruned(t)
    ensures Pruned(Removed(t, src, kind))
    ensures forall a, k :: CountOf(Removed(t, src, kind), a, k)
                        == CountOf(t, a, k) - if a == src && k == kind && CountOf(t, a, k) > 0 then 1 else 0
  {
  }

  /** Dropping what was just added restores the very table, so idle sources leave no trace. */
  lemma RemovedUndoesAdded(t: Table, src: Addr6, kind: Kind)
    requires Pruned(t)
    ensures Removed(Added(t, src, kind), src, kind) == t
  {
    var one := (if src in t then t[src] else Counts(0, 0)).Plus(kind, 1);
    assert one.Plus(kind, -1) == if src in t then t[src] else Counts(0, 0);
  }

  class SrcTracker {
    var counts: Table

    constructor ()
      ensures counts == map[]
    {
      counts := map[];
    }

    method Add(src: Addr6, kind: Kind)
      modifies this
      ensures counts == Added(old(counts), src, kind)
    {
      var c := if src in counts then counts[src] else Counts(0, 0);
      counts := counts[src := c.Plus(kind, 1)];
    }

    method Remove(src: Addr6, kind: Kind)
      modifies this
      ensures counts == Removed(old(counts), src, kind)
    {
      if src !in counts || counts[src].Of(kind) <= 0 {
        return;
      }
      var c := counts[src].Plus(kind, -1);
      if c.udp == 0 && c.tcp == 0 {
        counts := counts - {src};
        return;
      }
      counts := counts[src := c];
    }

    method Count(src: Addr6, kind: Kind) returns (c: int)
      ensures c == CountOf(counts, src, kind)
    {
      c := if src in counts then counts[src].Of(kind) else 0;
    }
  }
}
