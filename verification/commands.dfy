/** Reference readings of a sequence of fluent configuration calls, one field
    at a time: a setter is "last call wins", an adder appends in call order.
    Each builder in the model folds its calls over a configuration record; the
    lemmas next to each builder relate that fold to these per-field readings. */
module Commands {
  import opened Wrappers

  /** The value given by the last call that `pick` recognises, if any.
      `LastOfMeaning` states what it finds. */
  function LastOf<C, T>(calls: seq<C>, pick: C -> Option<T>): Option<T>
    decreases |calls|
  {
    if |calls| == 0 then None
    else if pick(calls[|calls| - 1]).Some? then pick(calls[|calls| - 1])
    else LastOf(calls[..|calls| - 1], pick)
  }

  /** `LastOf` is empty exactly when no call is recognised; otherwise it is
      the value of a recognised call with no recognised call after it. */
  lemma {:induction false} LastOfMeaning<C, T>(calls: seq<C>, pick: C -> Option<T>)
    ensures LastOf(calls, pick).None? <==> forall i :: 0 <= i < |calls| ==> pick(calls[i]).None?
    ensures LastOf(calls, pick).Some? ==>
              exists i :: 0 <= i < |calls| && pick(calls[i]) == LastOf(calls, pick)
                          && forall j :: i < j < |calls| ==> pick(calls[j]).None?
    decreases |calls|
  {
    if |calls| > 0 {
      var n := |calls| - 1;
      var prefix := calls[..n];
      if pick(calls[n]).Some? {
        assert pick(calls[n]) == LastOf(calls, pick);
      } else {
        LastOfMeaning(prefix, pick);
        assert forall i :: 0 <= i < n ==> prefix[i] == calls[i];
        if LastOf(calls, pick).Some? {
          var i :| 0 <= i < n && pick(prefix[i]) == LastOf(prefix, pick)
                   && forall j :: i < j < n ==> pick(prefix[j]).None?;
          assert pick(calls[i]) == LastOf(calls, pick);
        }
      }
    }
  }

  /** The values of every call that `pick` recognises, in call order.
      `CollectMeaning` states what it holds. */
  function Collect<C, T>(calls: seq<C>, pick: C -> Option<T>): seq<T>
    decreases |calls|
  {
    if |calls| == 0 then []
    else
      var earlier := Collect(calls[..|calls| - 1], pick);
      match pick(calls[|calls| - 1])
      case Some(x) => earlier + [x]
      case None => earlier
  }

  /** Every collected value comes from a recognised call, there are no more
      values than calls, and nothing is collected when no call is recognised. */
  lemma {:induction false} CollectMeaning<C, T>(calls: seq<C>, pick: C -> Option<T>)
    ensures |Collect(calls, pick)| <= |calls|
    ensures forall x :: x in Collect(calls, pick) ==>
              exists i :: 0 <= i < |calls| && pick(calls[i]) == Some(x)
    ensures (forall i :: 0 <= i < |calls| ==> pick(calls[i]).None?) ==> Collect(calls, pick) == []
    decreases |calls|
  {
    if |calls| > 0 {
      var n := |calls| - 1;
      var prefix := calls[..n];
      CollectMeaning(prefix, pick);
      assert forall i :: 0 <= i < n ==> prefix[i] == calls[i];
      forall x | x in Collect(calls, pick)
        ensures exists i :: 0 <= i < |calls| && pick(calls[i]) == Some(x)
      {
        if x in Collect(prefix, pick) {
          var i :| 0 <= i < n && pick(prefix[i]) == Some(x);
          assert pick(calls[i]) == Some(x);
        } else {
          assert pick(calls[n]) == Some(x);
        }
      }
    }
  }

  /** `idx` lists, in increasing order, exactly the positions of the calls
      that `pick` recognises. */
  ghost predicate RecognisedPositions<C, T>(calls: seq<C>, pick: C -> Option<T>, idx: seq<nat>) {
    && (forall k :: 0 <= k < |idx| ==> idx[k] < |calls| && pick(calls[idx[k]]).Some?)
    && (forall k, l :: 0 <= k < l < |idx| ==> idx[k] < idx[l])
    && (forall i :: 0 <= i < |calls| && pick(calls[i]).Some? ==> i in idx)
  }

  /** `idx` lists the recognised calls, and the k-th collected value is the
      value of the call at `idx[k]`. */
  ghost predicate CollectedFrom<C, T>(calls: seq<C>, pick: C -> Option<T>, idx: seq<nat>) {
    && RecognisedPositions(calls, pick, idx)
    && |idx| == |Collect(calls, pick)|
    && forall k :: 0 <= k < |idx| ==> pick(calls[idx[k]]) == Some(Collect(calls, pick)[k])
  }

  /** The k-th collected value is the value of the k-th recognised call: the
      values keep call order and each recognised call contributes once. */
  lemma {:induction false} CollectInOrder<C, T>(calls: seq<C>, pick: C -> Option<T>)
    ensures exists idx :: CollectedFrom(calls, pick, idx)
    decreases |calls|
  {
    if |calls| == 0 {
      assert CollectedFrom(calls, pick, []);
    } else {
      var prefix := calls[..|calls| - 1];
      CollectInOrder(prefix, pick);
      var idx0 :| CollectedFrom(prefix, pick, idx0);
      var idx := PositionsSnoc(calls, pick, idx0);
      ValuesSnoc(calls, pick, idx0, idx);
    }
  }

  /** The values of the recognised calls of a sequence are those of its
      prefix, followed by the last call's value when it is recognised. */
  lemma ValuesSnoc<C, T>(calls: seq<C>, pick: C -> Option<T>, idx0: seq<nat>, idx: seq<nat>)
    requires |calls| > 0 && CollectedFrom(calls[..|calls| - 1], pick, idx0)
    requires RecognisedPositions(calls, pick, idx)
    requires idx == if pick(calls[|calls| - 1]).Some? then idx0 + [|calls| - 1] else idx0
    ensures CollectedFrom(calls, pick, idx)
  {
    var n := |calls| - 1;
    var prefix := calls[..n];
    assert prefix + [calls[n]] == calls;
    CollectSnoc(prefix, calls[n], pick);
    var earlier, all := Collect(prefix, pick), Collect(calls, pick);
    assert |idx| == |all|;
    forall k | 0 <= k < |idx|
      ensures pick(calls[idx[k]]) == Some(all[k])
    {
      if k < |idx0| {
        assert idx[k] == idx0[k] < n;
        assert pick(prefix[idx0[k]]) == Some(earlier[k]);
        assert prefix[idx0[k]] == calls[idx[k]];
        assert all[k] == earlier[k];
      } else {
        assert idx[k] == n && all[k] == pick(calls[n]).value;
      }
    }
  }

  /** The positions of the recognised calls of a sequence are those of its
      prefix, followed by the last position when the last call is recognised. */
  lemma PositionsSnoc<C, T>(calls: seq<C>, pick: C -> Option<T>, idx0: seq<nat>) returns (idx: seq<nat>)
    requires |calls| > 0 && RecognisedPositions(calls[..|calls| - 1], pick, idx0)
    ensures RecognisedPositions(calls, pick, idx)
    ensures idx == if pick(calls[|calls| - 1]).Some? then idx0 + [|calls| - 1] else idx0
  {
    var n := |calls| - 1;
    var prefix := calls[..n];
    assert forall i :: 0 <= i < n ==> prefix[i] == calls[i];
    idx := if pick(calls[n]).Some? then idx0 + [n] else idx0;
    forall i | 0 <= i < |calls| && pick(calls[i]).Some?
      ensures i in idx
    {
      if i < n {
        assert pick(prefix[i]).Some?;
      } else {
        assert idx[|idx| - 1] == i;
      }
    }
  }

  /** Appending a call extends the collected values by at most that call's value. */
  lemma CollectSnoc<C, T>(calls: seq<C>, call: C, pick: C -> Option<T>)
    ensures Collect(calls + [call], pick)
            == Collect(calls, pick) + (if pick(call).Some? then [pick(call).value] else [])
  {
    assert (calls + [call])[..|calls|] == calls;
  }

  /** A later call that `pick` recognises overrides every earlier one. */
  lemma LastOfSnoc<C, T>(calls: seq<C>, call: C, pick: C -> Option<T>)
    ensures LastOf(calls + [call], pick)
            == (if pick(call).Some? then pick(call) else LastOf(calls, pick))
  {
    assert (calls + [call])[..|calls|] == calls;
  }
}
