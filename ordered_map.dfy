module Optional {
  datatype Option<+T> = None | Some(value: T)
}

/** The mirror map is a Python dict from vertex index to vertex index. Its
    iteration order decides the order of the later transfer writes, so it is
    modelled as a sequence of entries with distinct keys: assigning to a key
    that is already present replaces that entry where it stands, assigning to
    a new key appends. */
module OrderedMap {

  datatype Pair = Pair(src: nat, dst: nat)

  type Dict = seq<Pair>

  function Keys(m: Dict): set<nat>
  {
    set p | 0 <= p < |m| :: m[p].src
  }

  predicate KeysDistinct(m: Dict)
  {
    forall p, q :: 0 <= p < q < |m| ==> m[p].src != m[q].src
  }

  /** `m[k] = v` */
  function Put(m: Dict, k: nat, v: nat): (r: Dict)
    ensures Keys(r) == Keys(m) + {k}
    ensures Pair(k, v) in r
    ensures k in Keys(m) ==> |r| == |m|
    ensures k !in Keys(m) ==> r == m + [Pair(k, v)]
    ensures forall p :: 0 <= p < |m| && m[p].src != k ==> r[p] == m[p]
    ensures forall e :: e in r ==> e == Pair(k, v) || (e in m && e.src != k)
    ensures KeysDistinct(m) ==> KeysDistinct(r)
  {
    if k in Keys(m) then
      var r := seq(|m|, p requires 0 <= p < |m| => if m[p].src == k then Pair(k, v) else m[p]);
      assert Pair(k, v) in r by {
        var p :| 0 <= p < |m| && m[p].src == k;
        assert r[p] == Pair(k, v);
      }
      assert Keys(r) == Keys(m) + {k} by {
        forall x | x in Keys(m) ensures x in Keys(r) {
          var p :| 0 <= p < |m| && m[p].src == x;
          assert r[p].src == x;
        }
      }
      r
    else
      var r := m + [Pair(k, v)];
      assert r[|m|] == Pair(k, v);
      assert Keys(r) == Keys(m) + {k} by {
        forall x | x in Keys(r) ensures x in Keys(m) + {k} {
          var p :| 0 <= p < |r| && r[p].src == x;
          if p < |m| { assert m[p].src == x; }
        }
        forall x | x in Keys(m) ensures x in Keys(r) {
          var p :| 0 <= p < |m| && m[p].src == x;
          assert r[p].src == x;
        }
      }
      r
  }

  /** Assigning to one key keeps every entry under another key. */
  lemma PutKeepsEntry(m: Dict, k: nat, v: nat, e: Pair)
    requires e in m && e.src != k
    ensures e in Put(m, k, v)
  {
    var p :| 0 <= p < |m| && m[p] == e;
    assert Put(m, k, v)[p] == e;
  }

  /** Keys of a dict built with `Put` name at most one entry each. */
  lemma DistinctKeysUnique(m: Dict, e1: Pair, e2: Pair)
    requires KeysDistinct(m) && e1 in m && e2 in m && e1.src == e2.src
    ensures e1 == e2
  {
  }
}
