/**
  The registered-module round of `TestImmutables.testImmutableList`: the array `[1,2,3]` read
  as an `ImmutableList<Integer>` is the three integers in order.
 */
module ImmutableListExample {
  import opened Wrappers
  import opened JsonParser
  import opened GuavaBuilder
  import opened ImmutableListDeserializer
  import opened ImmutableListProperties

  /** The integer element deserializer: a JSON number slot carries its integer value. */
  function IntegerDeserializer(): ValueDeserializer<int, int, string, string>
  {
    ValueDeserializer(p => Ok(NonNull(p)), (p, typeId) => Ok(NonNull(p)))
  }

  /** The deserializer the module resolves for `ImmutableList<Integer>`: no type deserializer. */
  function IntegerListDeserializer(): ListDeserializer<string, int, int, string, string>
  {
    ListDeserializer("ImmutableList<Integer>", None, IntegerDeserializer())
  }

  /** `[1,2,3]` followed by anything reads as the list 1, 2, 3, whatever the builder's null
      policy, and leaves what follows the array unread. */
  lemma {:induction false} ReadsOneTwoThree(admitsNull: bool, rest: seq<Token<int>>)
    ensures Run(IntegerListDeserializer(), admitsNull, [Value(1), Value(2), Value(3), EndArray] + rest).result
         == Ok([NonNull(1), NonNull(2), NonNull(3)])
    ensures Run(IntegerListDeserializer(), admitsNull, [Value(1), Value(2), Value(3), EndArray] + rest).consumed
         == 4
  {
    var ts: seq<Token<int>> := [Value(1), Value(2), Value(3), EndArray];
    var d := IntegerListDeserializer();
    assert StopsCleanlyAt(d, admitsNull, ts, 3);
    RunBuildsList(d, admitsNull, ts, 3);
    var list := Run(d, admitsNull, ts).result.value;
    assert list == [NonNull(1), NonNull(2), NonNull(3)] by {
      assert list[0] == Step(d, admitsNull, ts[0]).value;
      assert list[1] == Step(d, admitsNull, ts[1]).value;
      assert list[2] == Step(d, admitsNull, ts[2]).value;
    }
    RunIgnoresRest(d, admitsNull, ts, rest);
  }

  /** The test itself, stated through the imperative loop: a parser over `[1,2,3]` (the start
      marker already consumed) and a Guava builder, which rejects null entries. */
  method ReadIntegerList() returns (list: seq<Nullable<int>>)
    ensures list == [NonNull(1), NonNull(2), NonNull(3)]
  {
    var jp := new Parser<int>([Value(1), Value(2), Value(3), EndArray]);
    ReadsOneTwoThree(false, []);
    assert [Value(1), Value(2), Value(3), EndArray] + [] == jp.Remaining();
    var r, calls := DeserializeContents(IntegerListDeserializer(), jp, false);
    list := r.value;
  }
}
