/** The two transfer loops of the operators: for every `src -> dst` of the
    mirror map, in map order, the target layer's displacement from its
    reference layer is carried across the mirror plane. A pair that names an
    index past the end of either layer raises `IndexError` before any write
    and is skipped. */
module Transfer {
  import opened Geometry
  import opened OrderedMap
  import MirrorMap
  import Connectivity

  /** Every read of the pair succeeds: both indices are inside the target
      and the reference layer. */
  predicate InBounds(e: Pair, nt: nat, nr: nat)
  {
    e.src < nt && e.dst < nt && e.src < nr && e.dst < nr
  }

  /** `ref_dst + mirrored(target[src] - ref_src)`, with the axis coordinate
      set to the reference's when the reference vertex is on the plane. */
  function Mirrored(tsrc: Vec3, rsrc: Vec3, rdst: Vec3, axis: Axis, tol: real): Vec3
  {
    var c := Add(rdst, Reflect(Sub(tsrc, rsrc), axis));
    if Abs(Get(rdst, axis)) <= tol then With(c, axis, Get(rdst, axis)) else c
  }

  /** The new position keeps the source's displacement on the other axes,
      negates it on the mirror axis, and has no displacement on that axis
      when the reference vertex is on the plane. */
  lemma MirroredCoordinates(tsrc: Vec3, rsrc: Vec3, rdst: Vec3, axis: Axis, tol: real)
    ensures var r := Mirrored(tsrc, rsrc, rdst, axis, tol);
      && (forall b :: b != axis ==> Get(r, b) == Get(rdst, b) + (Get(tsrc, b) - Get(rsrc, b)))
      && (OnAxis(rdst, axis, tol) ==> Get(r, axis) == Get(rdst, axis))
      && (!OnAxis(rdst, axis, tol) ==> Get(r, axis) == Get(rdst, axis) - (Get(tsrc, axis) - Get(rsrc, axis)))
  {
  }

  /** The symmetrize loop over the first entries of `m`: each entry in
      bounds overwrites `t[dst]`, reading `t[src]` as earlier entries left
      it. */
  function ApplyMirror(t: seq<Vec3>, ref: seq<Vec3>, m: Dict, axis: Axis, tol: real): (r: seq<Vec3>)
    ensures |r| == |t|
  {
    if m == [] then t
    else
      var prev := ApplyMirror(t, ref, m[..|m| - 1], axis, tol);
      var e := m[|m| - 1];
      if InBounds(e, |t|, |ref|) then prev[e.dst := Mirrored(prev[e.src], ref[e.src], ref[e.dst], axis, tol)]
      else prev
  }

  /** The indices some entry in bounds writes. */
  predicate Writes(m: Dict, nt: nat, nr: nat, x: nat)
  {
    exists e :: e in m && InBounds(e, nt, nr) && e.dst == x
  }

  lemma PrefixEntries(m: Dict)
    requires m != []
    ensures forall e :: e in m[..|m| - 1] ==> e in m
  {
  }

  /** Symmetrize writes only at destinations of entries in bounds. */
  lemma {:induction false} ApplyMirrorFrame(t: seq<Vec3>, ref: seq<Vec3>, m: Dict, axis: Axis, tol: real)
    ensures var r := ApplyMirror(t, ref, m, axis, tol);
      forall x :: 0 <= x < |t| && !Writes(m, |t|, |ref|, x) ==> r[x] == t[x]
  {
    if m != [] {
      var pre := m[..|m| - 1];
      ApplyMirrorFrame(t, ref, pre, axis, tol);
      PrefixEntries(m);
    }
  }

  /** Every written vertex whose reference lies on the plane ends with the
      reference's axis coordinate, whatever the order of the writes. */
  lemma {:induction false} ApplyMirrorPinned(t: seq<Vec3>, ref: seq<Vec3>, m: Dict, axis: Axis, tol: real)
    ensures var r := ApplyMirror(t, ref, m, axis, tol);
      forall x :: 0 <= x < |t| && x < |ref| && Writes(m, |t|, |ref|, x) && OnAxis(ref[x], axis, tol) ==>
        Get(r[x], axis) == Get(ref[x], axis)
  {
    if m != [] {
      var pre := m[..|m| - 1];
      var last := m[|m| - 1];
      ApplyMirrorPinned(t, ref, pre, axis, tol);
      var r := ApplyMirror(t, ref, m, axis, tol);
      forall x | 0 <= x < |t| && x < |ref| && Writes(m, |t|, |ref|, x) && OnAxis(ref[x], axis, tol)
        ensures Get(r[x], axis) == Get(ref[x], axis)
      {
        if !(InBounds(last, |t|, |ref|) && last.dst == x) {
          var e :| e in m && InBounds(e, |t|, |ref|) && e.dst == x;
          assert e != last;
          assert e in pre by {
            var p :| 0 <= p < |m| && m[p] == e;
            assert p < |m| - 1;
            assert pre[p] == e;
          }
        }
      }
    }
  }

  /** Reading the target as its own reference changes nothing: every
      delta is zero. */
  lemma MirroredOfReference(v: Vec3, w: Vec3, axis: Axis, tol: real)
    ensures Mirrored(v, v, w, axis, tol) == w
  {
    SubSelf(v);
    ReflectZero(axis);
    AddOrigin(w);
    WithOwn(w, axis);
  }

  lemma UpdateSame(s: seq<Vec3>, i: nat)
    requires i < |s|
    ensures s[i := s[i]] == s
  {
  }

  lemma MirrorStepAliased(s: seq<Vec3>, i: nat, j: nat, axis: Axis, tol: real)
    requires i < |s| && j < |s|
    ensures s[j := Mirrored(s[i], s[i], s[j], axis, tol)] == s
  {
    MirroredOfReference(s[i], s[j], axis, tol);
    UpdateSame(s, j);
  }

  /** Symmetrizing a layer against itself is the identity; this is the
      case of the Basis key, whose relative key is itself. */
  lemma {:induction false} ApplyMirrorAliased(s: seq<Vec3>, m: Dict, axis: Axis, tol: real)
    ensures ApplyMirror(s, s, m, axis, tol) == s
  {
    if m != [] {
      var e := m[|m| - 1];
      ApplyMirrorAliased(s, m[..|m| - 1], axis, tol);
      if InBounds(e, |s|, |s|) {
        MirrorStepAliased(s, e.src, e.dst, axis, tol);
      }
    }
  }

  /** No vertex is written twice and no entry reads a vertex another entry
      writes. */
  predicate SingleWrites(m: Dict, nt: nat, nr: nat)
  {
    forall p, q :: 0 <= p < |m| && 0 <= q < |m| && p != q && InBounds(m[p], nt, nr) && InBounds(m[q], nt, nr) ==>
      m[p].dst != m[q].dst && m[p].src != m[q].dst
  }

  /** For such maps the loop equals writing every destination at once from
      the original target: `r[dst] == Mirrored(t[src], ref[src], ref[dst])`. */
  lemma {:induction false} ApplyMirrorParallel(t: seq<Vec3>, ref: seq<Vec3>, m: Dict, axis: Axis, tol: real)
    requires SingleWrites(m, |t|, |ref|)
    ensures var r := ApplyMirror(t, ref, m, axis, tol);
      forall e :: e in m && InBounds(e, |t|, |ref|) ==> r[e.dst] == Mirrored(t[e.src], ref[e.src], ref[e.dst], axis, tol)
  {
    if m != [] {
      var pre := m[..|m| - 1];
      var last := m[|m| - 1];
      assert SingleWrites(pre, |t|, |ref|) by {
        forall p, q | 0 <= p < |pre| && 0 <= q < |pre| ensures pre[p] == m[p] && pre[q] == m[q] { }
      }
      ApplyMirrorParallel(t, ref, pre, axis, tol);
      var prev := ApplyMirror(t, ref, pre, axis, tol);
      var r := ApplyMirror(t, ref, m, axis, tol);
      forall e | e in m && InBounds(e, |t|, |ref|)
        ensures r[e.dst] == Mirrored(t[e.src], ref[e.src], ref[e.dst], axis, tol)
      {
        var p :| 0 <= p < |m| && m[p] == e;
        if p == |m| - 1 {
          ApplyMirrorFrame(t, ref, pre, axis, tol);
          forall e2 | e2 in pre && InBounds(e2, |t|, |ref|) ensures e2.dst != e.src {
            var q :| 0 <= q < |pre| && pre[q] == e2;
            assert m[q] == e2;
          }
        } else {
          assert pre[p] == e;
          if InBounds(last, |t|, |ref|) {
            assert m[p].dst != m[|m| - 1].dst;
          }
        }
      }
    }
  }

  /** What the swap loop carries: the target layer and `swapped`. */
  datatype SwapState = SwapState(t: seq<Vec3>, swapped: set<Pair>)

  /** `t[src] = ref_src + mirrored(delta_dst)` and `t[dst] = ref_dst +
      mirrored(delta_src)`, both deltas taken before either write. */
  function Exchange(t: seq<Vec3>, ref: seq<Vec3>, e: Pair, axis: Axis): (r: seq<Vec3>)
    requires InBounds(e, |t|, |ref|)
    ensures |r| == |t|
    ensures r[e.dst] == Add(ref[e.dst], Reflect(Sub(t[e.src], ref[e.src]), axis))
    ensures e.src != e.dst ==> r[e.src] == Add(ref[e.src], Reflect(Sub(t[e.dst], ref[e.dst]), axis))
    ensures forall x :: 0 <= x < |t| && x != e.src && x != e.dst ==> r[x] == t[x]
  {
    var dsrc := Reflect(Sub(t[e.src], ref[e.src]), axis);
    var ddst := Reflect(Sub(t[e.dst], ref[e.dst]), axis);
    t[e.src := Add(ref[e.src], ddst)][e.dst := Add(ref[e.dst], dsrc)]
  }

  /** One more entry of the symmetrize loop. */
  lemma ApplyMirrorSnoc(t: seq<Vec3>, ref: seq<Vec3>, m: Dict, k: nat, axis: Axis, tol: real)
    requires k < |m|
    ensures var prev := ApplyMirror(t, ref, m[..k], axis, tol);
      var e := m[k];
      ApplyMirror(t, ref, m[..k + 1], axis, tol) ==
        if InBounds(e, |t|, |ref|) then prev[e.dst := Mirrored(prev[e.src], ref[e.src], ref[e.dst], axis, tol)]
        else prev
  {
    assert m[..k + 1][..k] == m[..k];
  }

  /** The swap loop over the first entries of `m`: an entry whose reverse
      was processed is skipped, an entry in bounds is exchanged and
      recorded. */
  function SwapAll(t: seq<Vec3>, ref: seq<Vec3>, m: Dict, axis: Axis): (r: SwapState)
    ensures |r.t| == |t|
  {
    if m == [] then SwapState(t, {})
    else
      var prev := SwapAll(t, ref, m[..|m| - 1], axis);
      var e := m[|m| - 1];
      if Pair(e.dst, e.src) in prev.swapped then prev
      else if InBounds(e, |prev.t|, |ref|) then SwapState(Exchange(prev.t, ref, e, axis), prev.swapped + {e})
      else prev
  }

  function ApplySwap(t: seq<Vec3>, ref: seq<Vec3>, m: Dict, axis: Axis): (r: seq<Vec3>)
    ensures |r| == |t|
  {
    SwapAll(t, ref, m, axis).t
  }

  /** The indices some entry in bounds names. */
  predicate Touches(m: Dict, nt: nat, nr: nat, x: nat)
  {
    exists e :: e in m && InBounds(e, nt, nr) && (e.src == x || e.dst == x)
  }

  /** `swapped` holds only processed entries, all in bounds. */
  lemma {:induction false} SwappedFacts(t: seq<Vec3>, ref: seq<Vec3>, m: Dict, axis: Axis)
    ensures forall e :: e in SwapAll(t, ref, m, axis).swapped ==> e in m && InBounds(e, |t|, |ref|)
  {
    if m != [] {
      SwappedFacts(t, ref, m[..|m| - 1], axis);
    }
  }

  /** Swap changes no index that no entry in bounds names. */
  lemma {:induction false} ApplySwapFrame(t: seq<Vec3>, ref: seq<Vec3>, m: Dict, axis: Axis)
    ensures var r := ApplySwap(t, ref, m, axis);
      forall x :: 0 <= x < |t| && !Touches(m, |t|, |ref|, x) ==> r[x] == t[x]
  {
    if m != [] {
      var pre := m[..|m| - 1];
      ApplySwapFrame(t, ref, pre, axis);
      PrefixEntries(m);
    }
  }

  /** `swapped` only grows as the loop goes on. */
  lemma {:induction false} SwappedGrows(t: seq<Vec3>, ref: seq<Vec3>, m: Dict, i: nat, j: nat, axis: Axis)
    requires i <= j <= |m|
    ensures SwapAll(t, ref, m[..i], axis).swapped <= SwapAll(t, ref, m[..j], axis).swapped
  {
    if i < j {
      SwappedGrows(t, ref, m, i, j - 1, axis);
      SwapAllSnoc(t, ref, m, j - 1, axis);
    }
  }

  /** A pair listed in both orders is exchanged once: in a map with
      distinct keys, the later of the two entries finds the earlier one in
      `swapped` and leaves the state as it was. */
  lemma SwapSkipsReverse(t: seq<Vec3>, ref: seq<Vec3>, m: Dict, p: nat, q: nat, axis: Axis)
    requires KeysDistinct(m) && p < q < |m|
    requires m[q] == Pair(m[p].dst, m[p].src) && InBounds(m[p], |t|, |ref|)
    ensures m[p] in SwapAll(t, ref, m[..q], axis).swapped
    ensures SwapAll(t, ref, m[..q + 1], axis) == SwapAll(t, ref, m[..q], axis)
  {
    SwappedFacts(t, ref, m[..p], axis);
    assert m[q] !in SwapAll(t, ref, m[..p], axis).swapped by {
      forall j | 0 <= j < p ensures m[..p][j] != m[q] {
        assert m[..p][j].src == m[j].src;
      }
    }
    SwapAllSnoc(t, ref, m, p, axis);
    SwappedGrows(t, ref, m, p + 1, q, axis);
    SwapAllSnoc(t, ref, m, q, axis);
  }

  /** In no map are two different entries that are each other's reverse
      both exchanged. */
  lemma {:induction false} SwappedNoReverse(t: seq<Vec3>, ref: seq<Vec3>, m: Dict, axis: Axis)
    ensures var s := SwapAll(t, ref, m, axis).swapped;
      forall e1, e2 :: e1 in s && e2 in s && e1.src == e2.dst && e1.dst == e2.src ==> e1 == e2
  {
    if m != [] {
      SwappedNoReverse(t, ref, m[..|m| - 1], axis);
    }
  }

  /** Subtracting the base a displacement was added to gives the
      displacement back. */
  lemma AddSub(b: Vec3, d: Vec3)
    ensures Sub(Add(b, d), b) == d
  {
  }

  /** A destination that is also a self entry is exchanged twice: the
      second exchange reflects the delta it just received back, so the
      destination ends with the source's delta unmirrored. */
  lemma SwapReflectsTwice(t: seq<Vec3>, ref: seq<Vec3>, s: nat, d: nat, axis: Axis)
    requires s != d && InBounds(Pair(s, d), |t|, |ref|)
    ensures var r := ApplySwap(t, ref, [Pair(s, d), Pair(d, d)], axis);
      && r[d] == Add(ref[d], Sub(t[s], ref[s]))
      && r[s] == Add(ref[s], Reflect(Sub(t[d], ref[d]), axis))
  {
    var m := [Pair(s, d), Pair(d, d)];
    SwapAllSnoc(t, ref, m, 0, axis);
    SwapAllSnoc(t, ref, m, 1, axis);
    assert m[..0] == [];
    assert m[..2] == m;
    AddSub(ref[d], Reflect(Sub(t[s], ref[s]), axis));
    ReflectInvolutive(Sub(t[s], ref[s]), axis);
  }

  /** Symmetrize meets the same double entry: when the reference of the
      destination lies off the plane, the self entry's write is not pinned,
      so it reflects the delta just written back again and the destination
      ends with the source's delta unmirrored. */
  lemma SymmetrizeReflectsTwice(t: seq<Vec3>, ref: seq<Vec3>, s: nat, d: nat, axis: Axis, tol: real)
    requires s != d && InBounds(Pair(s, d), |t|, |ref|) && !OnAxis(ref[d], axis, tol)
    ensures ApplyMirror(t, ref, [Pair(s, d), Pair(d, d)], axis, tol)[d] == Add(ref[d], Sub(t[s], ref[s]))
  {
    var m := [Pair(s, d), Pair(d, d)];
    ApplyMirrorSnoc(t, ref, m, 0, axis, tol);
    ApplyMirrorSnoc(t, ref, m, 1, axis, tol);
    assert m[..0] == [];
    assert m[..2] == m;
    AddSub(ref[d], Reflect(Sub(t[s], ref[s]), axis));
    ReflectInvolutive(Sub(t[s], ref[s]), axis);
  }

  /** Every index is named by at most one entry in bounds (a self entry
      names its index once). */
  predicate Disjoint(m: Dict, nt: nat, nr: nat)
  {
    forall p, q :: 0 <= p < |m| && 0 <= q < |m| && p != q && InBounds(m[p], nt, nr) && InBounds(m[q], nt, nr) ==>
      m[p].src != m[q].src && m[p].src != m[q].dst && m[p].dst != m[q].dst
  }

  lemma DisjointPrefix(m: Dict, nt: nat, nr: nat)
    requires m != [] && Disjoint(m, nt, nr)
    ensures Disjoint(m[..|m| - 1], nt, nr)
  {
    var pre := m[..|m| - 1];
    forall p, q | 0 <= p < |pre| && 0 <= q < |pre| ensures pre[p] == m[p] && pre[q] == m[q] { }
  }

  /** An earlier entry in bounds shares no index with the last one. */
  lemma LastApart(m: Dict, nt: nat, nr: nat, p: nat)
    requires Disjoint(m, nt, nr) && p < |m| - 1
    requires InBounds(m[p], nt, nr) && InBounds(m[|m| - 1], nt, nr)
    ensures var last := m[|m| - 1];
      m[p].src != last.src && m[p].src != last.dst && m[p].dst != last.src && m[p].dst != last.dst
  {
    var q := |m| - 1;
    assert m[p].src != m[q].src && m[p].src != m[q].dst && m[p].dst != m[q].dst;
    assert m[q].src != m[p].dst;
  }

  lemma LastUntouched(m: Dict, nt: nat, nr: nat)
    requires m != [] && Disjoint(m, nt, nr) && InBounds(m[|m| - 1], nt, nr)
    ensures var pre := m[..|m| - 1];
      !Touches(pre, nt, nr, m[|m| - 1].src) && !Touches(pre, nt, nr, m[|m| - 1].dst)
  {
    var pre := m[..|m| - 1];
    var last := m[|m| - 1];
    forall e | e in pre && InBounds(e, nt, nr)
      ensures e.src != last.src && e.dst != last.src && e.src != last.dst && e.dst != last.dst
    {
      var q :| 0 <= q < |pre| && pre[q] == e;
      assert m[q] == e;
      LastApart(m, nt, nr, q);
    }
  }

  /** For such maps the swap exchanges every pair from the original target,
      and nothing is skipped. */
  lemma {:induction false} ApplySwapParallel(t: seq<Vec3>, ref: seq<Vec3>, m: Dict, axis: Axis)
    requires Disjoint(m, |t|, |ref|)
    ensures var r := ApplySwap(t, ref, m, axis);
      forall e :: e in m && InBounds(e, |t|, |ref|) ==>
        && r[e.dst] == Add(ref[e.dst], Reflect(Sub(t[e.src], ref[e.src]), axis))
        && r[e.src] == Add(ref[e.src], Reflect(Sub(t[e.dst], ref[e.dst]), axis))
  {
    if m != [] {
      var pre := m[..|m| - 1];
      var last := m[|m| - 1];
      DisjointPrefix(m, |t|, |ref|);
      ApplySwapParallel(t, ref, pre, axis);
      SwappedFacts(t, ref, pre, axis);
      ApplySwapFrame(t, ref, pre, axis);
      var prev := SwapAll(t, ref, pre, axis);
      var r := ApplySwap(t, ref, m, axis);
      if InBounds(last, |t|, |ref|) {
        LastUntouched(m, |t|, |ref|);
        assert Pair(last.dst, last.src) !in prev.swapped;
      }
      forall e | e in m && InBounds(e, |t|, |ref|)
        ensures r[e.dst] == Add(ref[e.dst], Reflect(Sub(t[e.src], ref[e.src]), axis))
        ensures r[e.src] == Add(ref[e.src], Reflect(Sub(t[e.dst], ref[e.dst]), axis))
      {
        var p :| 0 <= p < |m| && m[p] == e;
        if p != |m| - 1 {
          assert pre[p] == e;
          if InBounds(last, |t|, |ref|) {
            LastApart(m, |t|, |ref|, p);
          }
        }
      }
    }
  }

  /** Mirroring a displacement across, and back again, restores it. */
  lemma Undo(v: Vec3, a: Vec3, b: Vec3, axis: Axis)
    ensures Add(a, Reflect(Sub(Add(b, Reflect(Sub(v, a), axis)), b), axis)) == v
  {
    var d := Sub(v, a);
    assert Sub(Add(b, Reflect(d, axis)), b) == Reflect(d, axis);
    ReflectInvolutive(d, axis);
  }

  /** Swapping twice restores the target when every index is named by at
      most one entry in bounds. */
  lemma ApplySwapInvolutive(t: seq<Vec3>, ref: seq<Vec3>, m: Dict, axis: Axis)
    requires Disjoint(m, |t|, |ref|)
    ensures ApplySwap(ApplySwap(t, ref, m, axis), ref, m, axis) == t
  {
    var once := ApplySwap(t, ref, m, axis);
    var twice := ApplySwap(once, ref, m, axis);
    ApplySwapParallel(t, ref, m, axis);
    ApplySwapParallel(once, ref, m, axis);
    ApplySwapFrame(t, ref, m, axis);
    ApplySwapFrame(once, ref, m, axis);
    forall x | 0 <= x < |t| ensures twice[x] == t[x] {
      if Touches(m, |t|, |ref|, x) {
        var e :| e in m && InBounds(e, |t|, |ref|) && (e.src == x || e.dst == x);
        if e.dst == x {
          Undo(t[e.dst], ref[e.dst], ref[e.src], axis);
        } else {
          Undo(t[e.src], ref[e.src], ref[e.dst], axis);
        }
      }
    }
  }

  /** Swapping a layer against itself is the identity. */
  lemma {:induction false} ApplySwapAliased(s: seq<Vec3>, m: Dict, axis: Axis)
    ensures ApplySwap(s, s, m, axis) == s
  {
    if m != [] {
      ApplySwapAliased(s, m[..|m| - 1], axis);
    }
  }

  /** A reference vertex on the plane turns a self entry into a no-op on
      a position whose axis coordinate is already the reference's. */
  lemma MirroredSelf(v: Vec3, r: Vec3, axis: Axis, tol: real)
    requires OnAxis(r, axis, tol) && Get(v, axis) == Get(r, axis)
    ensures Mirrored(v, r, r, axis, tol) == v
  {
    match axis
    case X =>
    case Y =>
    case Z =>
  }

  /** What a map must satisfy for every written vertex to end the
      symmetrize loop with a value fixed by the map alone, whatever the
      order of its entries: distinct keys; no vertex read by a cross entry
      (one with `src != dst`) is ever written; no two cross entries share a
      destination; and a vertex that is both a self entry and a cross
      destination has its reference on the plane. */
  predicate WriteSafe(m: Dict, ref: seq<Vec3>, axis: Axis, tol: real)
  {
    && KeysDistinct(m)
    && (forall e1, e2 :: e1 in m && e2 in m && e1.src != e1.dst ==> e2.dst != e1.src)
    && (forall e1, e2 :: e1 in m && e2 in m && e1.src != e1.dst && e2.src != e2.dst && e1.dst == e2.dst ==> e1 == e2)
    && (forall e :: e in m && e.src != e.dst && Pair(e.dst, e.dst) in m && e.dst < |ref| ==> OnAxis(ref[e.dst], axis, tol))
  }

  lemma WriteSafePrefix(m: Dict, ref: seq<Vec3>, axis: Axis, tol: real)
    requires m != [] && WriteSafe(m, ref, axis, tol)
    ensures WriteSafe(m[..|m| - 1], ref, axis, tol)
  {
    PrefixEntries(m);
    var pre := m[..|m| - 1];
    forall p, q | 0 <= p < q < |pre| ensures pre[p].src != pre[q].src {
      assert pre[p] == m[p] && pre[q] == m[q];
    }
  }

  lemma InPrefix(m: Dict, e: Pair)
    requires e in m && e != m[|m| - 1]
    ensures e in m[..|m| - 1]
  {
    var p :| 0 <= p < |m| && m[p] == e;
    assert m[..|m| - 1][p] == e;
  }

  /** The last entry's key is no earlier entry's key. */
  lemma LastKeyFresh(m: Dict, e: Pair)
    requires m != [] && KeysDistinct(m) && e in m[..|m| - 1]
    ensures e.src != m[|m| - 1].src
  {
    var p :| 0 <= p < |m| - 1 && m[..|m| - 1][p] == e;
    assert m[p] == e;
  }

  /** Under `WriteSafe`, a cross entry's destination ends as the mirror of
      its source's original position. */
  lemma {:induction false} CrossEntryFinal(t: seq<Vec3>, ref: seq<Vec3>, m: Dict, e: Pair, axis: Axis, tol: real)
    requires WriteSafe(m, ref, axis, tol) && e in m && e.src != e.dst && InBounds(e, |t|, |ref|)
    ensures ApplyMirror(t, ref, m, axis, tol)[e.dst] == Mirrored(t[e.src], ref[e.src], ref[e.dst], axis, tol)
  {
    var pre := m[..|m| - 1];
    var last := m[|m| - 1];
    WriteSafePrefix(m, ref, axis, tol);
    PrefixEntries(m);
    ApplyMirrorFrame(t, ref, pre, axis, tol);
    if e == last {
      assert !Writes(pre, |t|, |ref|, e.src);
    } else {
      InPrefix(m, e);
      CrossEntryFinal(t, ref, pre, e, axis, tol);
      var prev := ApplyMirror(t, ref, pre, axis, tol);
      if InBounds(last, |t|, |ref|) && last.dst == e.dst {
        assert last == Pair(e.dst, e.dst);
        MirroredCoordinates(t[e.src], ref[e.src], ref[e.dst], axis, tol);
        MirroredSelf(prev[e.dst], ref[e.dst], axis, tol);
      }
    }
  }

  /** Under `WriteSafe`, a self entry that no cross entry writes ends as
      its own position with the displacement reflected (and pinned). */
  lemma {:induction false} SelfEntryFinal(t: seq<Vec3>, ref: seq<Vec3>, m: Dict, x: nat, axis: Axis, tol: real)
    requires WriteSafe(m, ref, axis, tol) && Pair(x, x) in m && x < |t| && x < |ref|
    requires forall e :: e in m && e.src != e.dst ==> e.dst != x
    ensures ApplyMirror(t, ref, m, axis, tol)[x] == Mirrored(t[x], ref[x], ref[x], axis, tol)
  {
    var pre := m[..|m| - 1];
    var last := m[|m| - 1];
    WriteSafePrefix(m, ref, axis, tol);
    PrefixEntries(m);
    if last == Pair(x, x) {
      ApplyMirrorFrame(t, ref, pre, axis, tol);
      forall e | e in pre && InBounds(e, |t|, |ref|) ensures e.dst != x {
        LastKeyFresh(m, e);
      }
      assert !Writes(pre, |t|, |ref|, x);
    } else {
      InPrefix(m, Pair(x, x));
      SelfEntryFinal(t, ref, pre, x, axis, tol);
      if last.dst == x {
        LastKeyFresh(m, Pair(x, x));
      }
    }
  }

  /** Maps of mirror-map shape are `WriteSafe` when the reference lies on
      the plane wherever the mesh does (as when the reference is the key
      holding the mesh's own positions). */
  lemma MirrorMapWriteSafe(coords: seq<Vec3>, m: Dict, ref: seq<Vec3>, axis: Axis, dir: Direction, tol: real)
    requires tol >= 0.0 && MirrorMap.MirrorShape(coords, m, axis, dir, tol)
    requires forall x :: 0 <= x < |coords| && x < |ref| && OnAxis(coords[x], axis, tol) ==> OnAxis(ref[x], axis, tol)
    ensures WriteSafe(m, ref, axis, tol)
  {
    MirrorMap.SourcesNotWritten(coords, m, axis, dir, tol);
  }

  /** On a mirror map, with the reference on the plane wherever the mesh
      is, every cross destination ends as the mirror of its source and
      every other self entry as its own reflected displacement. */
  lemma SymmetrizeMirrorMap(coords: seq<Vec3>, t: seq<Vec3>, ref: seq<Vec3>, m: Dict, axis: Axis, dir: Direction, tol: real)
    requires tol >= 0.0 && MirrorMap.MirrorShape(coords, m, axis, dir, tol)
    requires forall x :: 0 <= x < |coords| && x < |ref| && OnAxis(coords[x], axis, tol) ==> OnAxis(ref[x], axis, tol)
    ensures var r := ApplyMirror(t, ref, m, axis, tol);
      && (forall e :: e in m && e.src != e.dst && InBounds(e, |t|, |ref|) ==>
            r[e.dst] == Mirrored(t[e.src], ref[e.src], ref[e.dst], axis, tol))
      && (forall x: nat :: x < |t| && x < |ref| && Pair(x, x) in m && (forall e :: e in m && e.src != e.dst ==> e.dst != x) ==>
            r[x] == Mirrored(t[x], ref[x], ref[x], axis, tol))
  {
    MirrorMapWriteSafe(coords, m, ref, axis, dir, tol);
    forall e | e in m && e.src != e.dst && InBounds(e, |t|, |ref|)
      ensures ApplyMirror(t, ref, m, axis, tol)[e.dst] == Mirrored(t[e.src], ref[e.src], ref[e.dst], axis, tol)
    {
      CrossEntryFinal(t, ref, m, e, axis, tol);
    }
    forall x: nat | x < |t| && x < |ref| && Pair(x, x) in m && (forall e :: e in m && e.src != e.dst ==> e.dst != x)
      ensures ApplyMirror(t, ref, m, axis, tol)[x] == Mirrored(t[x], ref[x], ref[x], axis, tol)
    {
      SelfEntryFinal(t, ref, m, x, axis, tol);
    }
  }

  /** Symmetrizing against the mesh's own positions (the usual Basis
      reference) gives every cross destination the mirror of its source,
      whatever else the map holds. */
  lemma SymmetrizeOwnPositions(coords: seq<Vec3>, adj: Connectivity.Adjacency, t: seq<Vec3>, e: Pair, axis: Axis, dir: Direction, tol: real)
    requires Connectivity.WellFormed(adj) && |adj| == |coords| && tol >= 0.0
    requires e in MirrorMap.FindMap(coords, adj, axis, dir, tol) && e.src != e.dst && InBounds(e, |t|, |coords|)
    ensures ApplyMirror(t, coords, MirrorMap.FindMap(coords, adj, axis, dir, tol), axis, tol)[e.dst] ==
      Mirrored(t[e.src], coords[e.src], coords[e.dst], axis, tol)
  {
    var m := MirrorMap.FindMap(coords, adj, axis, dir, tol);
    MirrorMap.FindMapShape(coords, adj, axis, dir, tol);
    MirrorMapWriteSafe(coords, m, coords, axis, dir, tol);
    CrossEntryFinal(t, coords, m, e, axis, tol);
  }

  /** A self entry whose reference lies on the plane is idempotent: its
      result already has no displacement on the mirror axis. */
  lemma MirroredIdempotent(v: Vec3, r: Vec3, axis: Axis, tol: real)
    requires OnAxis(r, axis, tol)
    ensures Mirrored(Mirrored(v, r, r, axis, tol), r, r, axis, tol) == Mirrored(v, r, r, axis, tol)
  {
    match axis
    case X =>
    case Y =>
    case Z =>
  }

  /** Symmetrizing a second time with the same mirror map changes nothing,
      when the key holds a position for every vertex and the reference is
      on the plane wherever the mesh is. */
  lemma SymmetrizeIdempotent(coords: seq<Vec3>, t: seq<Vec3>, ref: seq<Vec3>, m: Dict, axis: Axis, dir: Direction, tol: real)
    requires tol >= 0.0 && MirrorMap.MirrorShape(coords, m, axis, dir, tol)
    requires |t| == |coords| && |ref| == |coords|
    requires forall x :: 0 <= x < |coords| && OnAxis(coords[x], axis, tol) ==> OnAxis(ref[x], axis, tol)
    ensures ApplyMirror(ApplyMirror(t, ref, m, axis, tol), ref, m, axis, tol) == ApplyMirror(t, ref, m, axis, tol)
  {
    var once := ApplyMirror(t, ref, m, axis, tol);
    var twice := ApplyMirror(once, ref, m, axis, tol);
    SymmetrizeMirrorMap(coords, t, ref, m, axis, dir, tol);
    SymmetrizeMirrorMap(coords, once, ref, m, axis, dir, tol);
    ApplyMirrorFrame(t, ref, m, axis, tol);
    ApplyMirrorFrame(once, ref, m, axis, tol);
    MirrorMap.SourcesNotWritten(coords, m, axis, dir, tol);
    forall x | 0 <= x < |t| ensures twice[x] == once[x] {
      if e :| e in m && e.src != e.dst && e.dst == x {
        assert InBounds(e, |t|, |ref|);
        assert !Writes(m, |t|, |ref|, e.src);
      } else if Pair(x, x) in m {
        MirroredIdempotent(t[x], ref[x], axis, tol);
      } else {
        assert !Writes(m, |t|, |ref|, x);
      }
    }
  }

  /** A mirror map none of whose matched destinations lies on the plane
      names every index at most once, so the parallel and involution
      lemmas apply to it. */
  lemma MirrorMapDisjoint(coords: seq<Vec3>, m: Dict, nt: nat, nr: nat, axis: Axis, dir: Direction, tol: real)
    requires tol >= 0.0 && MirrorMap.MirrorShape(coords, m, axis, dir, tol)
    requires forall e :: e in m && e.src != e.dst ==> !OnAxis(coords[e.dst], axis, tol)
    ensures Disjoint(m, nt, nr) && SingleWrites(m, nt, nr)
  {
    MirrorMap.SourcesNotWritten(coords, m, axis, dir, tol);
    forall p, q | 0 <= p < |m| && 0 <= q < |m| && p != q
      ensures m[p].src != m[q].src && m[p].src != m[q].dst && m[p].dst != m[q].dst
    {
      assert m[p] in m && m[q] in m;
    }
  }

  /** The symmetrize loop, writing the target layer in place; `reference`
      holds the reference layer's positions (see `ApplyMirrorAliased` for
      the reference being the target itself). */
  method Symmetrize(target: array<Vec3>, reference: seq<Vec3>, m: Dict, axis: Axis, tol: real)
    modifies target
    ensures target[..] == ApplyMirror(old(target[..]), reference, m, axis, tol)
  {
    ghost var t0 := target[..];
    for k := 0 to |m|
      invariant target[..] == ApplyMirror(t0, reference, m[..k], axis, tol)
    {
      var e := m[k];
      ApplyMirrorSnoc(t0, reference, m, k, axis, tol);
      if e.src < |reference| && e.dst < |reference| && e.src < target.Length && e.dst < target.Length {
        var refSrc := reference[e.src];
        var refDst := reference[e.dst];
        var delta := Sub(target[e.src], refSrc);
        var mirroredDelta := Reflect(delta, axis);
        var newCo := Add(refDst, mirroredDelta);
        if Abs(Get(refDst, axis)) <= tol {
          newCo := With(newCo, axis, Get(refDst, axis));
        }
        target[e.dst] := newCo;
      }
    }
    assert m[..|m|] == m;
  }

  /** One more entry of the swap loop. */
  lemma SwapAllSnoc(t: seq<Vec3>, ref: seq<Vec3>, m: Dict, k: nat, axis: Axis)
    requires k < |m|
    ensures var prev := SwapAll(t, ref, m[..k], axis);
      var e := m[k];
      SwapAll(t, ref, m[..k + 1], axis) ==
        if Pair(e.dst, e.src) in prev.swapped then prev
        else if InBounds(e, |prev.t|, |ref|) then SwapState(Exchange(prev.t, ref, e, axis), prev.swapped + {e})
        else prev
  {
    assert m[..k + 1][..k] == m[..k];
  }

  /** The swap loop, writing the target layer in place; `reference` holds
      the reference layer's positions (see `ApplySwapAliased` for the
      reference being the target itself). */
  method Swap(target: array<Vec3>, reference: seq<Vec3>, m: Dict, axis: Axis)
    modifies target
    ensures target[..] == ApplySwap(old(target[..]), reference, m, axis)
  {
    ghost var t0 := target[..];
    var swapped: set<Pair> := {};
    for k := 0 to |m|
      invariant SwapState(target[..], swapped) == SwapAll(t0, reference, m[..k], axis)
    {
      var e := m[k];
      SwapAllSnoc(t0, reference, m, k, axis);
      if Pair(e.dst, e.src) in swapped {
        continue;
      }
      if e.src < |reference| && e.dst < |reference| && e.src < target.Length && e.dst < target.Length {
        ghost var cur := target[..];
        var refSrc := reference[e.src];
        var refDst := reference[e.dst];
        var deltaSrc := Sub(target[e.src], refSrc);
        var deltaDst := Sub(target[e.dst], refDst);
        deltaSrc := Reflect(deltaSrc, axis);
        deltaDst := Reflect(deltaDst, axis);
        target[e.src] := Add(refSrc, deltaDst);
        target[e.dst] := Add(refDst, deltaSrc);
        assert target[..] == Exchange(cur, reference, e, axis);
        swapped := swapped + {e};
      }
    }
    assert m[..|m|] == m;
  }
}
