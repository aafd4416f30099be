/**
  The Guava `ImmutableList` deserializer: its copy-with-new-collaborators factory and the loop
  that reads the elements of a JSON array (RFC 8259, section 5) into an immutable list.

  `Run` is the specification of the element loop: what it returns, how many tokens it pulls
  from the parser and which value-deserializer entry point it invokes for each element.
  `DeserializeContents` is the loop itself, proved equal to `Run`; the lemmas in module
  `ImmutableListProperties` say what `Run` means.
 */
module ImmutableListDeserializer {
  import opened Wrappers
  import opened JsonParser
  import opened GuavaBuilder

  /** The element deserializer: its two entry points, plain and with a type deserializer.
      Either may return a null reference or fail. */
  datatype ValueDeserializer<!P, V, E, !T> = ValueDeserializer(
    deserialize: P -> Result<Nullable<V>, E>,
    deserializeWithType: (P, T) -> Result<Nullable<V>, E>)

  /** A configured list deserializer: the declared container type `C`, the optional type
      deserializer for the elements (`None` is Java's null) and the element deserializer. */
  datatype ListDeserializer<C, !P, V, E, !T> = ListDeserializer(
    containerType: C,
    typeDeserializerForValue: Option<T>,
    valueDeserializer: ValueDeserializer<P, V, E, T>)

  /** Why reading the contents failed. The element deserializer's own failure is passed on
      unchanged; the builder's refusal of a null entry is `NullNotAllowed`. */
  datatype Failure<E> = EndOfInput | NullNotAllowed | ElementFailure(cause: E)

  /** Which entry point of the element deserializer one element goes to. */
  datatype Call<P, T> = NoCall | Plain(payload: P) | WithType(payload: P, typeDeser: T)

  /** What one run of the element loop does: its result, how many tokens it pulled from the
      parser, and one decoder call per element it classified, in order. */
  datatype Trace<P, V, E, T> = Trace(
    result: Result<seq<Nullable<V>>, Failure<E>>,
    consumed: nat,
    calls: seq<Call<P, T>>)

  /** A deserializer with the same container type and the given collaborators. */
  function WithResolved<C, P, V, E, T>(d: ListDeserializer<C, P, V, E, T>, typeDeser: Option<T>,
                                       valueDeser: ValueDeserializer<P, V, E, T>)
    : (r: ListDeserializer<C, P, V, E, T>)
    ensures r.containerType == d.containerType
    ensures r.typeDeserializerForValue == typeDeser && r.valueDeserializer == valueDeser
  {
    d.(typeDeserializerForValue := typeDeser, valueDeserializer := valueDeser)
  }

  /** The classification of one element token: a null token calls nothing, any other goes to
      exactly one entry point, chosen by whether a type deserializer is configured. */
  function Dispatch<C, P, V, E, T>(d: ListDeserializer<C, P, V, E, T>, t: Token<P>): Call<P, T>
    requires !t.EndArray?
  {
    if t.ValueNull? then NoCall
    else if d.typeDeserializerForValue.None? then Plain(t.payload)
    else WithType(t.payload, d.typeDeserializerForValue.value)
  }

  /** Performs a call: a null token yields a null entry, the others what the entry point returns. */
  function Invoke<P, V, E, T>(vd: ValueDeserializer<P, V, E, T>, c: Call<P, T>): Result<Nullable<V>, E>
  {
    match c
    case NoCall => Ok(Null)
    case Plain(p) => vd.deserialize(p)
    case WithType(p, td) => vd.deserializeWithType(p, td)
  }

  /** One iteration of the loop on an element token: decode it, then add it to a builder
      whose null policy is `admitsNull`. */
  function Step<C, P, V, E, T>(d: ListDeserializer<C, P, V, E, T>, admitsNull: bool, t: Token<P>)
    : Result<Nullable<V>, Failure<E>>
    requires !t.EndArray?
  {
    match Invoke(d.valueDeserializer, Dispatch(d, t))
    case Err(e) => Err(ElementFailure(e))
    case Ok(x) => if x.Null? && !admitsNull then Err(NullNotAllowed) else Ok(x)
  }

  /** Prefixes a run by `k` tokens that contributed `done` and made `calls`. */
  function Resume<P, V, E, T>(done: seq<Nullable<V>>, k: nat, calls: seq<Call<P, T>>,
                              rest: Trace<P, V, E, T>): Trace<P, V, E, T>
  {
    Trace(if rest.result.Ok? then Ok(done + rest.result.value) else rest.result,
          k + rest.consumed, calls + rest.calls)
  }

  /** The element loop on the tokens `ts` that follow the array's start. */
  function Run<C, P, V, E, T>(d: ListDeserializer<C, P, V, E, T>, admitsNull: bool, ts: seq<Token<P>>)
    : Trace<P, V, E, T>
    decreases |ts|
  {
    if |ts| == 0 then Trace(Err(EndOfInput), 0, [])
    else if ts[0].EndArray? then Trace(Ok([]), 1, [])
    else
      match Step(d, admitsNull, ts[0])
      case Err(f) => Trace(Err(f), 1, [Dispatch(d, ts[0])])
      case Ok(x) => Resume([x], 1, [Dispatch(d, ts[0])], Run(d, admitsNull, ts[1..]))
  }

  lemma ResumeResume<P, V, E, T>(done: seq<Nullable<V>>, k: nat, calls: seq<Call<P, T>>,
                                 done': seq<Nullable<V>>, k': nat, calls': seq<Call<P, T>>,
                                 rest: Trace<P, V, E, T>)
    ensures Resume(done, k, calls, Resume(done', k', calls', rest))
         == Resume(done + done', k + k', calls + calls', rest)
  {
    if rest.result.Ok? {
      assert done + (done' + rest.result.value) == (done + done') + rest.result.value;
    }
    assert calls + (calls' + rest.calls) == (calls + calls') + rest.calls;
  }

  /** The loop, started at token `from` of `ts`, has pulled the tokens up to `to` without
      stopping, and they contributed the entries `done` and the decoder calls `calls`. */
  ghost predicate RunSoFar<C, P, V, E, T>(d: ListDeserializer<C, P, V, E, T>, admitsNull: bool,
                                          ts: seq<Token<P>>, from: nat, to: nat,
                                          done: seq<Nullable<V>>, calls: seq<Call<P, T>>)
  {
    && from <= to <= |ts|
    && Run(d, admitsNull, ts[from..]) == Resume(done, to - from, calls, Run(d, admitsNull, ts[to..]))
  }

  lemma RunSoFarStart<C, P, V, E, T>(d: ListDeserializer<C, P, V, E, T>, admitsNull: bool,
                                     ts: seq<Token<P>>, from: nat)
    requires from <= |ts|
    ensures RunSoFar(d, admitsNull, ts, from, from, [], [])
  {
    var rest := Run(d, admitsNull, ts[from..]);
    if rest.result.Ok? {
      assert [] + rest.result.value == rest.result.value;
    }
    assert [] + rest.calls == rest.calls;
  }

  lemma RunSoFarStep<C, P, V, E, T>(d: ListDeserializer<C, P, V, E, T>, admitsNull: bool,
                                    ts: seq<Token<P>>, from: nat, to: nat, done: seq<Nullable<V>>,
                                    calls: seq<Call<P, T>>, x: Nullable<V>)
    requires RunSoFar(d, admitsNull, ts, from, to, done, calls)
    requires to < |ts| && !ts[to].EndArray? && Invoke(d.valueDeserializer, Dispatch(d, ts[to])) == Ok(x)
    requires x.NonNull? || admitsNull
    ensures RunSoFar(d, admitsNull, ts, from, to + 1, done + [x], calls + [Dispatch(d, ts[to])])
  {
    assert Step(d, admitsNull, ts[to]) == Ok(x);
    assert ts[to..][1..] == ts[to + 1..];
    ResumeResume(done, to - from, calls, [x], 1, [Dispatch(d, ts[to])], Run(d, admitsNull, ts[to + 1..]));
  }

  lemma RunSoFarEndOfInput<C, P, V, E, T>(d: ListDeserializer<C, P, V, E, T>, admitsNull: bool,
                                          ts: seq<Token<P>>, from: nat, to: nat,
                                          done: seq<Nullable<V>>, calls: seq<Call<P, T>>)
    requires RunSoFar(d, admitsNull, ts, from, to, done, calls) && to == |ts|
    ensures Run(d, admitsNull, ts[from..]) == Trace(Err(EndOfInput), to - from, calls)
  {
    assert calls + [] == calls;
  }

  lemma RunSoFarEndArray<C, P, V, E, T>(d: ListDeserializer<C, P, V, E, T>, admitsNull: bool,
                                        ts: seq<Token<P>>, from: nat, to: nat,
                                        done: seq<Nullable<V>>, calls: seq<Call<P, T>>)
    requires RunSoFar(d, admitsNull, ts, from, to, done, calls) && to < |ts| && ts[to].EndArray?
    ensures Run(d, admitsNull, ts[from..]) == Trace(Ok(done), to + 1 - from, calls)
  {
    assert done + [] == done;
    assert calls + [] == calls;
  }

  lemma RunSoFarDecodeFailure<C, P, V, E, T>(d: ListDeserializer<C, P, V, E, T>, admitsNull: bool,
                                             ts: seq<Token<P>>, from: nat, to: nat,
                                             done: seq<Nullable<V>>, calls: seq<Call<P, T>>, e: E)
    requires RunSoFar(d, admitsNull, ts, from, to, done, calls)
    requires to < |ts| && !ts[to].EndArray? && Invoke(d.valueDeserializer, Dispatch(d, ts[to])) == Err(e)
    ensures Run(d, admitsNull, ts[from..])
         == Trace(Err(ElementFailure(e)), to + 1 - from, calls + [Dispatch(d, ts[to])])
  {
    assert Step(d, admitsNull, ts[to]) == Err(ElementFailure(e));
  }

  lemma RunSoFarNullRefused<C, P, V, E, T>(d: ListDeserializer<C, P, V, E, T>, admitsNull: bool,
                                           ts: seq<Token<P>>, from: nat, to: nat,
                                           done: seq<Nullable<V>>, calls: seq<Call<P, T>>)
    requires RunSoFar(d, admitsNull, ts, from, to, done, calls) && !admitsNull
    requires to < |ts| && !ts[to].EndArray? && Invoke(d.valueDeserializer, Dispatch(d, ts[to])) == Ok(Null)
    ensures Run(d, admitsNull, ts[from..])
         == Trace(Err(NullNotAllowed), to + 1 - from, calls + [Dispatch(d, ts[to])])
  {
    assert Step(d, admitsNull, ts[to]) == Err(NullNotAllowed);
  }

  /**
    Decodes the element that starts with token `t`: a null token becomes a null entry without
    calling the element deserializer; any other token goes to exactly one of its entry points,
    plain when no type deserializer is configured and with the type deserializer otherwise.
    The ghost `c` records which entry point was called. `Dispatch` and `Invoke` are its
    specification: the ensures tie the call and the value to them.
   */
  method DecodeElement<C, P, V, E, T>(d: ListDeserializer<C, P, V, E, T>, t: Token<P>)
    returns (value: Result<Nullable<V>, E>, ghost c: Call<P, T>)
    requires !t.EndArray?
    ensures value == Invoke(d.valueDeserializer, Dispatch(d, t))
    ensures t.ValueNull? ==> value == Ok(Null)
    ensures c == Dispatch(d, t)
  {
    var valueDes := d.valueDeserializer;
    var typeDeser := d.typeDeserializerForValue;
    if t.ValueNull? {
      value := Ok(Null);
      c := NoCall;
    } else if typeDeser.None? {
      value := valueDes.deserialize(t.payload);
      c := Plain(t.payload);
    } else {
      value := valueDes.deserializeWithType(t.payload, typeDeser.value);
      c := WithType(t.payload, typeDeser.value);
    }
  }

  /**
    Reads the elements that follow the array's start from `jp` into an immutable list, stopping
    at the first end-of-array token. `admitsNull` is the null policy of the list builder.
    The ghost `calls` records which entry point of the element deserializer each element went to.
    An exception thrown inside the loop is recorded in `failure` and ends the loop; it becomes
    the `Err` result, and no list is built.
   */
  method DeserializeContents<C, P, V, E, T>(d: ListDeserializer<C, P, V, E, T>, jp: Parser<P>,
                                            admitsNull: bool)
    returns (r: Result<seq<Nullable<V>>, Failure<E>>, ghost calls: seq<Call<P, T>>)
    requires jp.Valid()
    modifies jp
    ensures jp.Valid()
    ensures r == Run(d, admitsNull, old(jp.Remaining())).result
    ensures jp.pos == old(jp.pos) + Run(d, admitsNull, old(jp.Remaining())).consumed
    ensures calls == Run(d, admitsNull, old(jp.Remaining())).calls
  {
    var builder := new ListBuilder<V>(admitsNull);
    ghost var from := jp.pos;
    calls := [];
    RunSoFarStart(d, admitsNull, jp.tokens, from);
    var failure: Option<Failure<E>> := None;
    while true
      invariant jp.Valid() && from <= jp.pos
      invariant builder.Valid() && builder.admitsNull == admitsNull
      invariant RunSoFar(d, admitsNull, jp.tokens, from, jp.pos, builder.entries, calls)
      decreases |jp.tokens| - jp.pos
    {
      ghost var to, before := jp.pos, builder.entries;
      var t := jp.NextToken();
      if t.None? {
        RunSoFarEndOfInput(d, admitsNull, jp.tokens, from, to, before, calls);
        failure := Some(EndOfInput);
        break;
      }
      if t.value.EndArray? {
        RunSoFarEndArray(d, admitsNull, jp.tokens, from, to, before, calls);
        break;
      }
      var decoded, c := DecodeElement(d, t.value);
      if decoded.Err? {
        RunSoFarDecodeFailure(d, admitsNull, jp.tokens, from, to, before, calls, decoded.error);
        failure := Some(ElementFailure(decoded.error));
        calls := calls + [c];
        break;
      }
      var ok := builder.Add(decoded.value);
      if !ok {
        RunSoFarNullRefused(d, admitsNull, jp.tokens, from, to, before, calls);
        failure := Some(NullNotAllowed);
        calls := calls + [c];
        break;
      }
      RunSoFarStep(d, admitsNull, jp.tokens, from, to, before, calls, decoded.value);
      calls := calls + [c];
    }
    if failure.Some? {
      r := Err(failure.value);
    } else {
      var list := builder.Build();
      r := Ok(list);
    }
  }
}
