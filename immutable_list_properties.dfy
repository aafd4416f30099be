/**
  What the element loop of the `ImmutableList` deserializer guarantees, stated about its
  specification `Run` for every token sequence, every element deserializer and both null
  policies of the builder. `DeserializeContents` is proved equal to `Run`, so each lemma
  is also a statement about the loop itself.
 */
module ImmutableListProperties {
  import opened Wrappers
  import opened JsonParser
  import opened GuavaBuilder
  import opened ImmutableListDeserializer

  /** Token `k` of `ts` is an end-of-array marker, no token before it is one, and every element
      before it decodes and is admitted by the builder. */
  ghost predicate StopsCleanlyAt<C, P, V, E, T>(d: ListDeserializer<C, P, V, E, T>, admitsNull: bool,
                                                ts: seq<Token<P>>, k: nat)
  {
    && k < |ts| && ts[k].EndArray?
    && forall j :: 0 <= j < k ==> !ts[j].EndArray? && Step(d, admitsNull, ts[j]).Ok?
  }

  /** When the array ends cleanly at token `k`, the list has exactly one entry per element
      before it, entry `j` is what element `j` decoded to, the loop pulled the `k` elements and
      the end marker and nothing more, and element `j` went to the entry point `Dispatch` picks. */
  lemma {:induction false} RunBuildsList<C, P, V, E, T>(d: ListDeserializer<C, P, V, E, T>,
                                                        admitsNull: bool, ts: seq<Token<P>>, k: nat)
    requires StopsCleanlyAt(d, admitsNull, ts, k)
    ensures Run(d, admitsNull, ts).result.Ok?
    ensures |Run(d, admitsNull, ts).result.value| == k
    ensures Run(d, admitsNull, ts).consumed == k + 1 && |Run(d, admitsNull, ts).calls| == k
    ensures forall j :: 0 <= j < k ==>
              && Run(d, admitsNull, ts).result.value[j] == Step(d, admitsNull, ts[j]).value
              && Run(d, admitsNull, ts).calls[j] == Dispatch(d, ts[j])
  {
    if k > 0 {
      assert StopsCleanlyAt(d, admitsNull, ts[1..], k - 1) by {
        forall j | 0 <= j < k - 1
          ensures !ts[1..][j].EndArray? && Step(d, admitsNull, ts[1..][j]).Ok?
        {
          assert ts[1..][j] == ts[j + 1];
        }
      }
      RunBuildsList(d, admitsNull, ts[1..], k - 1);
      assert !ts[0].EndArray? && Step(d, admitsNull, ts[0]).Ok?;
      var tail := Run(d, admitsNull, ts[1..]);
      assert Run(d, admitsNull, ts)
          == Trace(Ok([Step(d, admitsNull, ts[0]).value] + tail.result.value), 1 + tail.consumed,
                   [Dispatch(d, ts[0])] + tail.calls);
      forall j | 1 <= j < k
        ensures Run(d, admitsNull, ts).result.value[j] == Step(d, admitsNull, ts[j]).value
        ensures Run(d, admitsNull, ts).calls[j] == Dispatch(d, ts[j])
      {
        assert ts[1..][j - 1] == ts[j];
      }
    }
  }

  /** Conversely, a list is produced only when the array ends cleanly, at the last token the
      loop pulled: a failing element or a missing end marker yields no list. */
  lemma {:induction false} RunOkOnlyIfStopsCleanly<C, P, V, E, T>(d: ListDeserializer<C, P, V, E, T>,
                                                                  admitsNull: bool, ts: seq<Token<P>>)
    requires Run(d, admitsNull, ts).result.Ok?
    ensures Run(d, admitsNull, ts).consumed >= 1
    ensures StopsCleanlyAt(d, admitsNull, ts, Run(d, admitsNull, ts).consumed - 1)
  {
    if !ts[0].EndArray? {
      var tail := Run(d, admitsNull, ts[1..]);
      RunOkOnlyIfStopsCleanly(d, admitsNull, ts[1..]);
      assert Run(d, admitsNull, ts).consumed == 1 + tail.consumed;
      forall j | 0 <= j < tail.consumed
        ensures !ts[j].EndArray? && Step(d, admitsNull, ts[j]).Ok?
      {
        if j > 0 {
          assert ts[1..][j - 1] == ts[j];
        }
      }
    }
  }

  /** The first element that fails to decode, or that the builder refuses, ends the loop with
      that failure: no list is produced and no token after that element is pulled. That element
      was still passed to its entry point, as its last call. */
  lemma {:induction false} RunFailsAtFirstBadElement<C, P, V, E, T>(d: ListDeserializer<C, P, V, E, T>,
                                                                    admitsNull: bool, ts: seq<Token<P>>,
                                                                    j: nat)
    requires j < |ts| && !ts[j].EndArray? && Step(d, admitsNull, ts[j]).Err?
    requires forall i :: 0 <= i < j ==> !ts[i].EndArray? && Step(d, admitsNull, ts[i]).Ok?
    ensures Run(d, admitsNull, ts).result == Err(Step(d, admitsNull, ts[j]).error)
    ensures Run(d, admitsNull, ts).consumed == j + 1
    ensures |Run(d, admitsNull, ts).calls| == j + 1 && Run(d, admitsNull, ts).calls[j] == Dispatch(d, ts[j])
  {
    if j > 0 {
      forall i | 0 <= i < j - 1
        ensures !ts[1..][i].EndArray? && Step(d, admitsNull, ts[1..][i]).Ok?
      {
        assert ts[1..][i] == ts[i + 1];
      }
      assert ts[1..][j - 1] == ts[j];
      RunFailsAtFirstBadElement(d, admitsNull, ts[1..], j - 1);
    }
  }

  /** Input that runs out before an end-of-array marker, with no failing element, fails with
      `EndOfInput` after every token has been pulled. */
  lemma {:induction false} RunEndOfInput<C, P, V, E, T>(d: ListDeserializer<C, P, V, E, T>,
                                                        admitsNull: bool, ts: seq<Token<P>>)
    requires forall i :: 0 <= i < |ts| ==> !ts[i].EndArray? && Step(d, admitsNull, ts[i]).Ok?
    ensures Run(d, admitsNull, ts).result == Err(EndOfInput)
    ensures Run(d, admitsNull, ts).consumed == |ts|
  {
    if |ts| > 0 {
      forall i | 0 <= i < |ts| - 1
        ensures !ts[1..][i].EndArray? && Step(d, admitsNull, ts[1..][i]).Ok?
      {
        assert ts[1..][i] == ts[i + 1];
      }
      RunEndOfInput(d, admitsNull, ts[1..]);
    }
  }

  /** An array whose first token is the end marker yields the empty list after one token. */
  lemma EmptyArrayYieldsEmptyList<C, P, V, E, T>(d: ListDeserializer<C, P, V, E, T>,
                                                 admitsNull: bool, ts: seq<Token<P>>)
    requires |ts| > 0 && ts[0].EndArray?
    ensures Run(d, admitsNull, ts).result == Ok([])
    ensures Run(d, admitsNull, ts).consumed == 1 && Run(d, admitsNull, ts).calls == []
  {
  }

  /** The loop never pulls more tokens than there are, and unless it ran out of input, the
      tokens it pulled alone determine everything it did. */
  lemma {:induction false} RunReadsOnlyConsumed<C, P, V, E, T>(d: ListDeserializer<C, P, V, E, T>,
                                                               admitsNull: bool, ts: seq<Token<P>>)
    ensures Run(d, admitsNull, ts).consumed <= |ts|
    ensures Run(d, admitsNull, ts).result != Err(EndOfInput) ==>
              Run(d, admitsNull, ts[..Run(d, admitsNull, ts).consumed]) == Run(d, admitsNull, ts)
  {
    if |ts| > 0 && !ts[0].EndArray? && Step(d, admitsNull, ts[0]).Ok? {
      var tail := Run(d, admitsNull, ts[1..]);
      RunReadsOnlyConsumed(d, admitsNull, ts[1..]);
      var n := Run(d, admitsNull, ts).consumed;
      assert n == 1 + tail.consumed;
      if Run(d, admitsNull, ts).result != Err(EndOfInput) {
        assert tail.result != Err(EndOfInput);
        assert ts[..n][1..] == ts[1..][..tail.consumed];
      }
    } else if |ts| > 0 {
      assert ts[..1][0] == ts[0];
    }
  }

  /** Tokens after the point where the loop stopped are never pulled and cannot change the
      outcome: appending anything to input that ends the loop leaves its run unchanged. */
  lemma {:induction false} RunIgnoresRest<C, P, V, E, T>(d: ListDeserializer<C, P, V, E, T>,
                                                         admitsNull: bool, ts: seq<Token<P>>,
                                                         rest: seq<Token<P>>)
    requires Run(d, admitsNull, ts).result != Err(EndOfInput)
    ensures Run(d, admitsNull, ts + rest) == Run(d, admitsNull, ts)
  {
    assert (ts + rest)[0] == ts[0];
    if !ts[0].EndArray? && Step(d, admitsNull, ts[0]).Ok? {
      assert (ts + rest)[1..] == ts[1..] + rest;
      RunIgnoresRest(d, admitsNull, ts[1..], rest);
    }
  }

  /** Each element the loop classified went to one entry point, fixed for the whole loop by
      whether a type deserializer is configured: a null token to none, any other token to the
      plain entry point when there is no type deserializer and to the typed one otherwise. Every
      token pulled except a final end marker is such an element, the failing one included. */
  lemma {:induction false} RunCallsFollowTokens<C, P, V, E, T>(d: ListDeserializer<C, P, V, E, T>,
                                                               admitsNull: bool, ts: seq<Token<P>>)
    ensures |Run(d, admitsNull, ts).calls|
         == Run(d, admitsNull, ts).consumed - (if Run(d, admitsNull, ts).result.Ok? then 1 else 0)
    ensures forall i :: 0 <= i < |Run(d, admitsNull, ts).calls| ==>
              var c := Run(d, admitsNull, ts).calls[i];
              && i < |ts| && !ts[i].EndArray?
              && (ts[i].ValueNull? ==> c == NoCall)
              && (ts[i].Value? && d.typeDeserializerForValue.None? ==> c == Plain(ts[i].payload))
              && (ts[i].Value? && d.typeDeserializerForValue.Some? ==>
                    c == WithType(ts[i].payload, d.typeDeserializerForValue.value))
  {
    RunReadsOnlyConsumed(d, admitsNull, ts);
    if |ts| > 0 && !ts[0].EndArray? && Step(d, admitsNull, ts[0]).Ok? {
      var tail := Run(d, admitsNull, ts[1..]);
      RunCallsFollowTokens(d, admitsNull, ts[1..]);
      assert Run(d, admitsNull, ts).calls == [Dispatch(d, ts[0])] + tail.calls;
      forall i | 1 <= i < |Run(d, admitsNull, ts).calls|
        ensures Run(d, admitsNull, ts).calls[i] == tail.calls[i - 1] && ts[i] == ts[1..][i - 1]
      {
      }
    }
  }

  /** A null token puts a null entry in the list without calling the element deserializer;
      the builder must admit null for a list to be produced at all. */
  lemma NullTokenGivesNullEntry<C, P, V, E, T>(d: ListDeserializer<C, P, V, E, T>,
                                               admitsNull: bool, ts: seq<Token<P>>, j: nat)
    requires Run(d, admitsNull, ts).result.Ok?
    requires j < |Run(d, admitsNull, ts).result.value| && j < |ts| && ts[j].ValueNull?
    ensures admitsNull
    ensures Run(d, admitsNull, ts).result.value[j] == Null
    ensures j < |Run(d, admitsNull, ts).calls| && Run(d, admitsNull, ts).calls[j] == NoCall
  {
    RunOkOnlyIfStopsCleanly(d, admitsNull, ts);
    RunBuildsList(d, admitsNull, ts, Run(d, admitsNull, ts).consumed - 1);
  }

  /** After `WithResolved`, the loop's behaviour is fixed by the supplied collaborators alone:
      whatever the receiver held before, and whatever its container type, does not matter. */
  lemma {:induction false} ResolvedRunUsesSuppliedCollaborators<C, P, V, E, T>(
    d: ListDeserializer<C, P, V, E, T>, d': ListDeserializer<C, P, V, E, T>,
    typeDeser: Option<T>, valueDeser: ValueDeserializer<P, V, E, T>,
    admitsNull: bool, ts: seq<Token<P>>)
    ensures Run(WithResolved(d, typeDeser, valueDeser), admitsNull, ts)
         == Run(WithResolved(d', typeDeser, valueDeser), admitsNull, ts)
  {
    if |ts| > 0 && !ts[0].EndArray? {
      ResolvedRunUsesSuppliedCollaborators(d, d', typeDeser, valueDeser, admitsNull, ts[1..]);
    }
  }
}
