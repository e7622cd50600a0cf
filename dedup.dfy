/**
 * The skeleton shared by both `normalize_skill_list` variants: walk the
 * labels in order, drop those whose key is empty or already seen, and
 * keep a display form of each remaining one. The key and the display form
 * are parameters; each pipeline supplies its own.
 */
module LabelDedup {

  /** The non-empty keys of the labels. */
  function SeenKeys(labels: seq<string>, key: string -> string): set<string>
    decreases |labels|
  {
    if labels == [] then {}
    else
      var k := key(labels[|labels| - 1]);
      SeenKeys(labels[..|labels| - 1], key) + (if k == [] then {} else {k})
  }

  /** First-seen order deduplication: for each label in turn, its display
      form unless its key is empty or was seen before. */
  function Dedup(labels: seq<string>, key: string -> string, show: string -> string): seq<string>
    decreases |labels|
  {
    if labels == [] then []
    else
      var init := labels[..|labels| - 1];
      var last := labels[|labels| - 1];
      var k := key(last);
      if k == [] || k in SeenKeys(init, key) then Dedup(init, key, show)
      else Dedup(init, key, show) + [show(last)]
  }

  /** One step of the fold: what appending the label at position n to the
      prefix before it does to the seen keys and to the output. */
  lemma DedupStep(labels: seq<string>, key: string -> string, show: string -> string, n: nat)
    requires n < |labels|
    ensures SeenKeys(labels[..n + 1], key) ==
      SeenKeys(labels[..n], key) + (if key(labels[n]) == [] then {} else {key(labels[n])})
    ensures Dedup(labels[..n + 1], key, show) ==
      if key(labels[n]) == [] || key(labels[n]) in SeenKeys(labels[..n], key)
      then Dedup(labels[..n], key, show)
      else Dedup(labels[..n], key, show) + [show(labels[n])]
  {
    assert labels[..n + 1][..n] == labels[..n];
  }

  /** The label at position j has the given non-empty key. */
  predicate HasKeyAt(labels: seq<string>, key: string -> string, j: int, k: string) {
    0 <= j < |labels| && k != [] && key(labels[j]) == k
  }

  /** The seen keys are exactly the keys of the labels, minus the empty one. */
  lemma {:induction false} SeenKeysHas(labels: seq<string>, key: string -> string, k: string)
    ensures k in SeenKeys(labels, key) <==> exists j :: HasKeyAt(labels, key, j, k)
    decreases |labels|
  {
    if labels != [] {
      var n := |labels| - 1;
      var init := labels[..n];
      SeenKeysHas(init, key, k);
      if k in SeenKeys(labels, key) {
        if k in SeenKeys(init, key) {
          var j :| HasKeyAt(init, key, j, k);
          assert HasKeyAt(labels, key, j, k);
        } else {
          assert HasKeyAt(labels, key, n, k);
        }
      }
      if exists j :: HasKeyAt(labels, key, j, k) {
        var j :| HasKeyAt(labels, key, j, k);
        if j < n {
          assert HasKeyAt(init, key, j, k);
        }
      }
    }
  }

  /** The label at position j has a non-empty key that no earlier label has. */
  predicate IsFirstSeen(labels: seq<string>, key: string -> string, j: nat)
    requires j < |labels|
  {
    key(labels[j]) != [] && key(labels[j]) !in SeenKeys(labels[..j], key)
  }

  /** First-seen, spelled out. */
  lemma FirstSeenMeans(labels: seq<string>, key: string -> string, j: nat)
    requires j < |labels|
    ensures IsFirstSeen(labels, key, j) <==>
      key(labels[j]) != [] && forall i :: 0 <= i < j ==> key(labels[i]) != key(labels[j])
  {
    var k := key(labels[j]);
    SeenKeysHas(labels[..j], key, k);
    if k != [] && k !in SeenKeys(labels[..j], key) {
      forall i | 0 <= i < j ensures key(labels[i]) != k {
        assert labels[..j][i] == labels[i];
        assert !HasKeyAt(labels[..j], key, i, k);
      }
    }
    if k != [] && k in SeenKeys(labels[..j], key) {
      var i :| HasKeyAt(labels[..j], key, i, k);
      assert labels[..j][i] == labels[i];
    }
  }

  /** The first-seen positions, in increasing order. */
  function FirstSeenPositions(labels: seq<string>, key: string -> string): seq<nat>
    decreases |labels|
  {
    if labels == [] then []
    else
      var n := |labels| - 1;
      FirstSeenPositions(labels[..n], key) + (if IsFirstSeen(labels, key, n) then [n] else [])
  }

  /** Appending a label does not change which earlier positions are first-seen. */
  lemma FirstSeenPrefix(labels: seq<string>, key: string -> string, j: nat)
    requires j < |labels| - 1
    ensures IsFirstSeen(labels[..|labels| - 1], key, j) <==> IsFirstSeen(labels, key, j)
  {
    assert labels[..|labels| - 1][..j] == labels[..j];
  }

  /** The positions are increasing and are exactly the first-seen ones. */
  lemma {:induction false} FirstSeenPositionsSpec(labels: seq<string>, key: string -> string)
    ensures forall m :: 0 <= m < |FirstSeenPositions(labels, key)| ==>
      FirstSeenPositions(labels, key)[m] < |labels|
    ensures forall m, m' :: 0 <= m < m' < |FirstSeenPositions(labels, key)| ==>
      FirstSeenPositions(labels, key)[m] < FirstSeenPositions(labels, key)[m']
    ensures forall j: nat :: j in FirstSeenPositions(labels, key) <==> j < |labels| && IsFirstSeen(labels, key, j)
    decreases |labels|
  {
    if labels != [] {
      var n := |labels| - 1;
      FirstSeenPositionsSpec(labels[..n], key);
      forall j: nat | j < n ensures IsFirstSeen(labels[..n], key, j) <==> IsFirstSeen(labels, key, j) {
        FirstSeenPrefix(labels, key, j);
      }
    }
  }

  /** The output is the display form of the label at each first-seen
      position, in input order. */
  lemma {:induction false} DedupFirstSeen(labels: seq<string>, key: string -> string, show: string -> string)
    ensures |Dedup(labels, key, show)| == |FirstSeenPositions(labels, key)|
    ensures forall m :: 0 <= m < |FirstSeenPositions(labels, key)| ==>
      FirstSeenPositions(labels, key)[m] < |labels| &&
      Dedup(labels, key, show)[m] == show(labels[FirstSeenPositions(labels, key)[m]])
    decreases |labels|
  {
    FirstSeenPositionsSpec(labels, key);
    if labels != [] {
      var n := |labels| - 1;
      var init := labels[..n];
      DedupFirstSeen(init, key, show);
      FirstSeenPositionsSpec(init, key);
      assert labels[..n] == init;
      var pos := FirstSeenPositions(init, key);
      assert forall m :: 0 <= m < |pos| ==> init[pos[m]] == labels[pos[m]];
    }
  }

  /** When the display form keeps the key, every output has a non-empty key,
      no two outputs share a key, and the outputs' keys are exactly the
      non-empty keys of the input. */
  lemma {:induction false} DedupKeys(labels: seq<string>, key: string -> string, show: string -> string)
    requires forall s :: key(show(s)) == key(s)
    ensures forall o :: o in Dedup(labels, key, show) ==> key(o) != []
    ensures forall a, b :: 0 <= a < b < |Dedup(labels, key, show)| ==>
      key(Dedup(labels, key, show)[a]) != key(Dedup(labels, key, show)[b])
    ensures forall k :: k in SeenKeys(labels, key) <==> exists o :: o in Dedup(labels, key, show) && key(o) == k
    decreases |labels|
  {
    if labels != [] {
      var init := labels[..|labels| - 1];
      var last := labels[|labels| - 1];
      DedupKeys(init, key, show);
      var r := Dedup(init, key, show);
      var k := key(last);
      if !(k == [] || k in SeenKeys(init, key)) {
        var d := show(last);
        assert Dedup(labels, key, show) == r + [d];
        assert key(d) == k;
        forall k' | k' in SeenKeys(labels, key)
          ensures exists o :: o in r + [d] && key(o) == k'
        {
          if k' != k {
            var o :| o in r && key(o) == k';
            assert o in r + [d];
          } else {
            assert d in r + [d];
          }
        }
        forall o | o in r + [d] ensures key(o) in SeenKeys(labels, key) {
          if o != d {
            assert o in r;
          }
        }
      }
    }
  }

  /** A list whose entries have non-empty, pairwise distinct keys and are
      their own display forms is its own deduplication. */
  lemma {:induction false} DedupFixedPoint(r: seq<string>, key: string -> string, show: string -> string)
    requires forall o :: o in r ==> key(o) != [] && show(o) == o
    requires forall a, b :: 0 <= a < b < |r| ==> key(r[a]) != key(r[b])
    ensures Dedup(r, key, show) == r
    decreases |r|
  {
    if r != [] {
      var n := |r| - 1;
      var init := r[..n];
      assert forall o :: o in init ==> o in r;
      DedupFixedPoint(init, key, show);
      SeenKeysHas(init, key, key(r[n]));
      forall j | 0 <= j < n ensures !HasKeyAt(init, key, j, key(r[n])) {
        assert init[j] == r[j];
      }
      assert r[n] in r;
      assert r == init + [r[n]];
    }
  }

  /** With a display form that keeps the key and is idempotent,
      deduplicating twice is deduplicating once. */
  lemma DedupIdempotent(labels: seq<string>, key: string -> string, show: string -> string)
    requires forall s :: key(show(s)) == key(s)
    requires forall s :: show(show(s)) == show(s)
    ensures Dedup(Dedup(labels, key, show), key, show) == Dedup(labels, key, show)
  {
    var r := Dedup(labels, key, show);
    DedupKeys(labels, key, show);
    DedupFirstSeen(labels, key, show);
    forall o | o in r ensures show(o) == o {
      var m :| 0 <= m < |r| && r[m] == o;
      assert o == show(labels[FirstSeenPositions(labels, key)[m]]);
    }
    DedupFixedPoint(r, key, show);
  }
}
