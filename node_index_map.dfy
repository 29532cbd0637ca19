/**
 * The node-to-position map of create-node-index-map.ts: each node maps to the
 * last index at which it occurs.
 */
module NodeIndexMap {

  /** The set of nodes occurring in the list. */
  function Elements<T>(nodes: seq<T>): set<T> {
    set i | 0 <= i < |nodes| :: nodes[i]
  }

  predicate Distinct<T(==)>(nodes: seq<T>) {
    forall i, j :: 0 <= i < j < |nodes| ==> nodes[i] != nodes[j]
  }

  /** A list has at most as many distinct elements as entries, and as many when they are distinct. */
  lemma {:induction false} ElementsSize<T>(nodes: seq<T>)
    ensures |Elements(nodes)| <= |nodes|
    ensures Distinct(nodes) ==> |Elements(nodes)| == |nodes|
  {
    if nodes != [] {
      var init := nodes[..|nodes| - 1];
      var last := nodes[|nodes| - 1];
      ElementsSize(init);
      assert Elements(nodes) == Elements(init) + {last} by {
        forall x | x in Elements(nodes) ensures x in Elements(init) + {last} {
          var i :| 0 <= i < |nodes| && nodes[i] == x;
          if i < |nodes| - 1 { assert init[i] == x; }
        }
        forall x | x in Elements(init) ensures x in Elements(nodes) {
          var i :| 0 <= i < |init| && init[i] == x;
          assert nodes[i] == x;
        }
      }
      if Distinct(nodes) {
        assert forall i :: 0 <= i < |init| ==> init[i] != last by {
          forall i | 0 <= i < |init| ensures init[i] != last {
            assert init[i] == nodes[i];
          }
        }
        assert last !in Elements(init);
      }
    }
  }

  /** The loop of `createNodeIndexMap`: `set(node, index)` for every entry, in order. */
  method CreateNodeIndexMap<T(==)>(nodes: seq<T>) returns (m: map<T, nat>)
    ensures m.Keys == Elements(nodes)
    ensures forall x :: x in m ==> m[x] < |nodes| && nodes[m[x]] == x
    ensures forall x :: x in m ==> forall j :: m[x] < j < |nodes| ==> nodes[j] != x
    ensures Distinct(nodes) ==> forall i :: 0 <= i < |nodes| ==> m[nodes[i]] == i
    ensures |m| <= |nodes|
    ensures Distinct(nodes) ==> |m| == |nodes|
  {
    m := map[];
    var i := 0;
    while i < |nodes|
      invariant 0 <= i <= |nodes|
      invariant m.Keys == Elements(nodes[..i])
      invariant forall x :: x in m ==> m[x] < i && nodes[m[x]] == x
      invariant forall x :: x in m ==> forall j :: m[x] < j < i ==> nodes[j] != x
    {
      assert Elements(nodes[..i + 1]) == Elements(nodes[..i]) + {nodes[i]} by {
        assert forall k :: 0 <= k < i ==> nodes[..i + 1][k] == nodes[..i][k];
        assert nodes[..i + 1][i] == nodes[i];
      }
      m := m[nodes[i] := i];
      i := i + 1;
    }
    assert nodes[..i] == nodes;
    ElementsSize(nodes);
    assert m.Keys == Elements(nodes);
    assert |m| == |m.Keys|;
  }
}
