// The view over the four excess joint-degree tuples [u0, u1, v0, v1] of a
// proposed swap: each getter concatenates two of them into the key of an
// existing edge (u0u1, u1u0, v0v1, v1v0) or of a proposed edge (u0v1, v0u1).

module KeysView {

  type Key = seq<int>

  /** `JointExcessJointDegreeKeysView(keys)`; indexing past the end of
      `keys` is an IndexError that no caller handles. */
  datatype KeysView = KeysView(keys: seq<Key>)

  function U0U1(v: KeysView): (r: Key)
    requires |v.keys| > 1
    ensures |r| == |v.keys[0]| + |v.keys[1]|
    ensures r[..|v.keys[0]|] == v.keys[0] && r[|v.keys[0]|..] == v.keys[1]
  {
    v.keys[0] + v.keys[1]
  }

  function U1U0(v: KeysView): (r: Key)
    requires |v.keys| > 1
    ensures |r| == |v.keys[0]| + |v.keys[1]|
    ensures r[..|v.keys[1]|] == v.keys[1] && r[|v.keys[1]|..] == v.keys[0]
  {
    v.keys[1] + v.keys[0]
  }

  function V0V1(v: KeysView): (r: Key)
    requires |v.keys| > 3
    ensures |r| == |v.keys[2]| + |v.keys[3]|
    ensures r[..|v.keys[2]|] == v.keys[2] && r[|v.keys[2]|..] == v.keys[3]
  {
    v.keys[2] + v.keys[3]
  }

  function V1V0(v: KeysView): (r: Key)
    requires |v.keys| > 3
    ensures |r| == |v.keys[2]| + |v.keys[3]|
    ensures r[..|v.keys[3]|] == v.keys[3] && r[|v.keys[3]|..] == v.keys[2]
  {
    v.keys[3] + v.keys[2]
  }

  function U0V1(v: KeysView): (r: Key)
    requires |v.keys| > 3
    ensures |r| == |v.keys[0]| + |v.keys[3]|
    ensures r[..|v.keys[0]|] == v.keys[0] && r[|v.keys[0]|..] == v.keys[3]
  {
    v.keys[0] + v.keys[3]
  }

  function V0U1(v: KeysView): (r: Key)
    requires |v.keys| > 3
    ensures |r| == |v.keys[2]| + |v.keys[1]|
    ensures r[..|v.keys[2]|] == v.keys[2] && r[|v.keys[2]|..] == v.keys[1]
  {
    v.keys[2] + v.keys[1]
  }

  /** Exchanging the two halves of a key split after position t. */
  function SwapHalves(key: Key, t: nat): (r: Key)
    requires t <= |key|
    ensures |r| == |key|
  {
    key[t..] + key[..t]
  }

  /** The reversed edge keys are the forward keys with their halves swapped. */
  lemma ReversedKeys(v: KeysView)
    requires |v.keys| > 3
    ensures U1U0(v) == SwapHalves(U0U1(v), |v.keys[0]|)
    ensures V1V0(v) == SwapHalves(V0V1(v), |v.keys[2]|)
  {
  }

  /** A proposed key borrows one half from each existing key. */
  lemma ProposedKeysShareHalves(v: KeysView)
    requires |v.keys| > 3
    ensures U0V1(v)[..|v.keys[0]|] == U0U1(v)[..|v.keys[0]|]
    ensures U0V1(v)[|v.keys[0]|..] == V0V1(v)[|v.keys[2]|..]
    ensures V0U1(v)[..|v.keys[2]|] == V0V1(v)[..|v.keys[2]|]
    ensures V0U1(v)[|v.keys[2]|..] == U0U1(v)[|v.keys[0]|..]
  {
  }

  predicate CommonLength(v: KeysView, t: nat)
  {
    |v.keys| == 4 && forall i :: 0 <= i < 4 ==> |v.keys[i]| == t
  }

  lemma KeyLengths(v: KeysView, t: nat)
    requires CommonLength(v, t)
    ensures |U0U1(v)| == |U1U0(v)| == |V0V1(v)| == |V1V0(v)| == 2 * t
    ensures |U0V1(v)| == |V0U1(v)| == 2 * t
  {
  }

  /** With keys of one length, the swap leaves the u-side key unchanged
      exactly when u1 and v1 have the same excess joint degree; in that case
      the v-side key is unchanged too. This is the no-op the engine rejects. */
  lemma NoOpExactly(v: KeysView, t: nat)
    requires CommonLength(v, t)
    ensures U0V1(v) == U0U1(v) <==> v.keys[1] == v.keys[3]
    ensures V0U1(v) == V0V1(v) <==> v.keys[1] == v.keys[3]
  {
    if U0V1(v) == U0U1(v) {
      assert v.keys[3] == U0V1(v)[t..] == U0U1(v)[t..] == v.keys[1];
    }
    if V0U1(v) == V0V1(v) {
      assert v.keys[1] == V0U1(v)[t..] == V0V1(v)[t..] == v.keys[3];
    }
  }
}
