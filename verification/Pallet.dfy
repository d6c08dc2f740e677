/**
 * The pallet that logs messages: a counter of all messages ever sent, an
 * off-chain store of their bytes, and a log of events that name the store key.
 */
module Pallet {
  import opened Wrappers
  import opened ByteStrings
  import opened Metadata

  const U128_MAX: nat := 0xFFFF_FFFF_FFFF_FFFF_FFFF_FFFF_FFFF_FFFF

  datatype Origin<A> = Root | Signed(account: A) | Unsigned

  datatype DispatchError = BadOrigin | MessageCounterOverflow | MessageMalformed | MetadataMalformed

  datatype Event = MessageSent(key: Bytes, metadata: MessageMetadata)

  datatype Call<A> = SendMessage(origin: Origin<A>, metadata: MessageMetadata, message: Bytes)

  datatype State = State(counter: nat, offchain: map<Bytes, Bytes>, events: seq<Event>)

  const Genesis: State := State(0, map[], [])

  /** The storage key: the encoded account followed by the counter as a 128-bit integer. */
  function DerivedKey<A>(encode: A -> Bytes, account: A, counter: nat): Bytes {
    encode(account) + LittleEndian(counter, 16)
  }

  /** The key is the encoded account, then 16 bytes that are the counter, its low byte first, and nothing else. */
  lemma DerivedKeyLayout<A>(encode: A -> Bytes, account: A, counter: nat)
    requires counter < Pow256(16)
    ensures var key, n := DerivedKey(encode, account, counter), |encode(account)|;
            && |key| == n + 16
            && key[..n] == encode(account)
            && key[n] == counter % 256
            && FromLittleEndian(key[n..]) == counter
  {
    var key, n := DerivedKey(encode, account, counter), |encode(account)|;
    assert key[n..] == LittleEndian(counter, 16);
    LittleEndianReads(counter, 16);
  }

  /** The key determines the counter always, and the account as far as its encoding does. */
  lemma DerivedKeyInjective<A>(encode: A -> Bytes, a: A, m: nat, b: A, n: nat)
    requires m <= U128_MAX && n <= U128_MAX
    ensures DerivedKey(encode, a, m) == DerivedKey(encode, b, n) <==> encode(a) == encode(b) && m == n
  {
    if DerivedKey(encode, a, m) == DerivedKey(encode, b, n) {
      SameTails(encode(a), LittleEndian(m, 16), encode(b), LittleEndian(n, 16));
      Powers();
      LittleEndianReads(m, 16);
      LittleEndianReads(n, 16);
    }
  }

  /** However long accounts encode, the key determines account and counter when accounts encode injectively. */
  lemma DerivedKeyDetermines<A(!new)>(encode: A -> Bytes, a: A, m: nat, b: A, n: nat)
    requires forall x, y :: encode(x) == encode(y) ==> x == y
    requires m <= U128_MAX && n <= U128_MAX
    ensures DerivedKey(encode, a, m) == DerivedKey(encode, b, n) <==> a == b && m == n
  {
    DerivedKeyInjective(encode, a, m, b, n);
  }

  /** A non-empty table in which each of the n channels has a nonce and exactly n non-empty parties. */
  predicate SquareTable(m: MessageMetadata) {
    && |m.channels| > 0
    && forall i :: 0 <= i < |m.channels| ==> GoodChannel(m.channels[i], |m.channels|)
  }

  predicate GoodChannel(c: Channel, n: nat) {
    && |c.nonce| > 0
    && |c.parties| == n
    && forall j :: 0 <= j < |c.parties| ==> |c.parties[j]| > 0
  }

  /** The verdict on a message and its metadata; a fault of the message is reported first. */
  method CheckMessage(message: Bytes, metadata: MessageMetadata) returns (r: Result<(), DispatchError>)
    ensures r.Ok? <==> message != [] && SquareTable(metadata)
    ensures r.Ok? <==>
            && |message| > 0 && |metadata.channels| > 0
            && (forall i :: 0 <= i < |metadata.channels| ==>
                  |metadata.channels[i].nonce| > 0 && |metadata.channels[i].parties| == |metadata.channels|)
            && (forall i, j :: 0 <= i < |metadata.channels| && 0 <= j < |metadata.channels[i].parties| ==>
                  |metadata.channels[i].parties[j]| > 0)
    ensures r == Err(MessageMalformed) <==> message == []
    ensures r == Err(MetadataMalformed) <==> message != [] && !SquareTable(metadata)
  {
    if |message| == 0 {
      return Err(MessageMalformed);
    }
    if |metadata.channels| == 0 {
      return Err(MetadataMalformed);
    }
    for i := 0 to |metadata.channels|
      invariant forall k :: 0 <= k < i ==> GoodChannel(metadata.channels[k], |metadata.channels|)
    {
      var Channel(nonce, parties) := metadata.channels[i];
      if |nonce| == 0 || |parties| == 0 || |parties| != |metadata.channels| {
        assert !GoodChannel(metadata.channels[i], |metadata.channels|);
        return Err(MetadataMalformed);
      }
      for j := 0 to |parties|
        invariant forall k :: 0 <= k < j ==> |parties[k]| > 0
      {
        if |parties[j]| == 0 {
          assert !GoodChannel(metadata.channels[i], |metadata.channels|);
          return Err(MetadataMalformed);
        }
      }
    }
    r := Ok(());
  }

  // --- one call

  function Verdict<A>(st: State, call: Call<A>): Result<(), DispatchError> {
    if !call.origin.Signed? then Err(BadOrigin)
    else if call.message == [] then Err(MessageMalformed)
    else if !SquareTable(call.metadata) then Err(MetadataMalformed)
    else if st.counter >= U128_MAX then Err(MessageCounterOverflow)
    else Ok(())
  }

  /**
   * Which error a call gets, in any state: an unsigned or root call is a bad
   * origin whatever it carries; a signed call with an empty message is malformed
   * whatever its metadata; then the table is judged, and only an admissible call
   * meets the limit, when the next counter no longer fits in 128 bits.
   */
  lemma RefusalsExactly<A>(st: State, call: Call<A>)
    ensures Verdict(st, call) == Err(BadOrigin) <==> !call.origin.Signed?
    ensures Verdict(st, call) == Err(MessageMalformed) <==> call.origin.Signed? && call.message == []
    ensures Verdict(st, call) == Err(MetadataMalformed) <==>
            call.origin.Signed? && call.message != [] && !SquareTable(call.metadata)
    ensures Verdict(st, call) == Err(MessageCounterOverflow) <==>
            call.origin.Signed? && call.message != [] && SquareTable(call.metadata) && st.counter + 1 >= Pow256(16)
  {
    Powers();
  }

  function Step<A>(encode: A -> Bytes, st: State, call: Call<A>): State {
    if Verdict(st, call).Err? then st
    else
      var key := DerivedKey(encode, call.origin.account, st.counter);
      State(st.counter + 1, st.offchain[key := call.message], st.events + [MessageSent(key, call.metadata)])
  }

  /** The counter in the last 16 bytes of event `i` is `i`, and the store holds exactly the event keys. */
  ghost predicate WellFormed(st: State) {
    && st.counter == |st.events| <= U128_MAX
    && (forall i :: 0 <= i < |st.events| ==> Numbered(st.events[i].key, i))
    && (forall k :: k in st.offchain <==> exists i :: 0 <= i < |st.events| && st.events[i].key == k)
  }

  ghost predicate Numbered(key: Bytes, i: nat) {
    |key| >= 16 && key[|key| - 16..] == LittleEndian(i, 16)
  }

  /** Equal keys carry equal numbers. */
  lemma NumberedOnce(key: Bytes, i: nat, j: nat)
    requires i <= U128_MAX && j <= U128_MAX && Numbered(key, i) && Numbered(key, j)
    ensures i == j
  {
    Powers();
    LittleEndianReads(i, 16);
    LittleEndianReads(j, 16);
  }

  lemma DerivedKeyNumbered<A>(encode: A -> Bytes, account: A, i: nat)
    ensures Numbered(DerivedKey(encode, account, i), i)
  {
    var key := DerivedKey(encode, account, i);
    assert key[|key| - 16..] == LittleEndian(i, 16);
  }

  /** The key of the next message is not in use. */
  lemma NextKeyIsNew<A>(encode: A -> Bytes, st: State, account: A)
    requires WellFormed(st)
    ensures DerivedKey(encode, account, st.counter) !in st.offchain
  {
    var key := DerivedKey(encode, account, st.counter);
    DerivedKeyNumbered(encode, account, st.counter);
    if key in st.offchain {
      var i :| 0 <= i < |st.events| && st.events[i].key == key;
      NumberedOnce(key, i, st.counter);
    }
  }

  /** A call keeps the invariant and never writes a key that is already stored. */
  lemma StepKeepsWellFormed<A>(encode: A -> Bytes, st: State, call: Call<A>)
    requires WellFormed(st)
    ensures WellFormed(Step(encode, st, call))
    ensures forall k :: k in st.offchain ==>
                          k in Step(encode, st, call).offchain && Step(encode, st, call).offchain[k] == st.offchain[k]
  {
    var next := Step(encode, st, call);
    if next == st {
    } else {
      var n := st.counter;
      var key := DerivedKey(encode, call.origin.account, n);
      NextKeyIsNew(encode, st, call.origin.account);
      DerivedKeyNumbered(encode, call.origin.account, n);
      assert next.events == st.events + [MessageSent(key, call.metadata)];
      assert next.offchain == st.offchain[key := call.message];
      forall i | 0 <= i < |next.events|
        ensures Numbered(next.events[i].key, i)
      {
        if i < n {
          assert next.events[i] == st.events[i];
        }
      }
      forall i | 0 <= i < |next.events|
        ensures next.events[i].key in next.offchain
      {
        if i < n {
          assert next.events[i] == st.events[i];
        }
      }
      forall k | k in next.offchain
        ensures exists i :: 0 <= i < |next.events| && next.events[i].key == k
      {
        if k == key {
          assert next.events[n].key == k;
        } else {
          var i :| 0 <= i < |st.events| && st.events[i].key == k;
          assert next.events[i].key == k;
        }
      }
    }
  }

  /** Addition of 128-bit integers, wrapping around, and whether it wrapped. */
  method OverflowingAdd(a: nat, b: nat) returns (sum: nat, overflowed: bool)
    requires a <= U128_MAX && b <= U128_MAX
    ensures sum <= U128_MAX
    ensures overflowed <==> a + b > U128_MAX
    ensures a + b == sum + if overflowed then U128_MAX + 1 else 0
  {
    sum := (a + b) % (U128_MAX + 1);
    overflowed := a + b > U128_MAX;
  }

  /** The pallet's storage, generic in the account type and its encoding. */
  class NolikPallet<A> {
    const encode: A -> Bytes
    var counter: nat
    var offchain: map<Bytes, Bytes>
    var events: seq<Event>

    ghost function Contents(): State
      reads this
    {
      State(counter, offchain, events)
    }

    ghost predicate Valid()
      reads this
    {
      WellFormed(Contents())
    }

    constructor (encode: A -> Bytes)
      ensures this.encode == encode && Contents() == Genesis && Valid()
    {
      this.encode := encode;
      counter, offchain, events := 0, map[], [];
    }

    /**
     * Logs the message of a signed, well-formed call; any other call is refused
     * and changes nothing.  Nothing stored before is overwritten.
     */
    method Send(origin: Origin<A>, metadata: MessageMetadata, message: Bytes) returns (r: Result<(), DispatchError>)
      requires Valid()
      modifies this
      ensures Valid()
      ensures r == Verdict(old(Contents()), SendMessage(origin, metadata, message))
      ensures Contents() == Step(encode, old(Contents()), SendMessage(origin, metadata, message))
      ensures r.Err? ==> counter == old(counter) && offchain == old(offchain) && events == old(events)
      ensures r.Ok? ==>
                && origin.Signed?
                && counter == old(counter) + 1
                && var key := encode(origin.account) + LittleEndian(old(counter), 16);
                && offchain == old(offchain)[key := message]
                && events == old(events) + [MessageSent(key, metadata)]
      ensures forall k :: k in old(offchain) ==> k in offchain && offchain[k] == old(offchain)[k]
    {
      ghost var before, call := Contents(), SendMessage(origin, metadata, message);
      if !origin.Signed? {
        return Err(BadOrigin);
      }
      var account := origin.account;
      var check := CheckMessage(message, metadata);
      if check.Err? {
        return Err(check.error);
      }
      var next, overflowed := OverflowingAdd(counter, 1);
      if overflowed {
        return Err(MessageCounterOverflow);
      }
      var key := DerivedKey(encode, account, next - 1);
      offchain := offchain[key := message];
      counter := next;
      events := events + [MessageSent(key, metadata)];
      assert Contents() == Step(encode, before, call);
      StepKeepsWellFormed(encode, before, call);
      r := Ok(());
    }
  }

  // --- whole runs

  function Run<A>(encode: A -> Bytes, st: State, calls: seq<Call<A>>): State {
    if calls == [] then st
    else Step(encode, Run(encode, st, calls[..|calls| - 1]), calls[|calls| - 1])
  }

  /** Signed and well-formed: what the pallet accepts, room permitting. */
  predicate Admissible<A>(call: Call<A>) {
    call.origin.Signed? && call.message != [] && SquareTable(call.metadata)
  }

  function Admitted<A>(calls: seq<Call<A>>): (r: seq<Call<A>>)
    ensures forall i :: 0 <= i < |r| ==> Admissible(r[i])
  {
    if calls == [] then []
    else
      var last := calls[|calls| - 1];
      Admitted(calls[..|calls| - 1]) + if Admissible(last) then [last] else []
  }

  /** The admissible calls of a run, up to the last one that the counter can number. */
  function Logged<A>(calls: seq<Call<A>>): (r: seq<Call<A>>)
    ensures |r| == Min(|Admitted(calls)|, U128_MAX)
    ensures forall i :: 0 <= i < |r| ==> Admissible(r[i])
  {
    Admitted(calls)[..Min(|Admitted(calls)|, U128_MAX)]
  }

  function KeyOf<A>(encode: A -> Bytes, log: seq<Call<A>>, i: nat): Bytes
    requires i < |log| && Admissible(log[i])
  {
    DerivedKey(encode, log[i].origin.account, i)
  }

  /**
   * The state is that of an append-only log: the counter is its length, event
   * i names the key of its i-th call, and the store maps those keys, and no
   * others, to the messages of their calls.
   */
  ghost predicate Represents<A>(encode: A -> Bytes, st: State, log: seq<Call<A>>)
    requires forall i :: 0 <= i < |log| ==> Admissible(log[i])
  {
    && st.counter == |log|
    && |st.events| == |log|
    && (forall i :: 0 <= i < |log| ==> st.events[i] == MessageSent(KeyOf(encode, log, i), log[i].metadata))
    && (forall i :: 0 <= i < |log| ==>
                      KeyOf(encode, log, i) in st.offchain && st.offchain[KeyOf(encode, log, i)] == log[i].message)
    && (forall k :: k in st.offchain ==> exists i :: 0 <= i < |log| && KeyOf(encode, log, i) == k)
  }

  /** A call appended to the log gets a key of its own and leaves the other keys. */
  lemma KeysAfterPush<A>(encode: A -> Bytes, log: seq<Call<A>>, call: Call<A>, i: nat)
    requires forall k :: 0 <= k < |log| ==> Admissible(log[k])
    requires Admissible(call) && |log| < U128_MAX && i < |log|
    ensures KeyOf(encode, log + [call], i) == KeyOf(encode, log, i)
    ensures KeyOf(encode, log, i) != DerivedKey(encode, call.origin.account, |log|)
  {
    DerivedKeyInjective(encode, log[i].origin.account, i, call.origin.account, |log|);
  }

  lemma RepresentsPush<A>(encode: A -> Bytes, st: State, log: seq<Call<A>>, call: Call<A>)
    requires forall i :: 0 <= i < |log| ==> Admissible(log[i])
    requires Admissible(call) && |log| < U128_MAX
    requires Represents(encode, st, log)
    ensures Represents(encode, Step(encode, st, call), log + [call])
  {
    var log', st' := log + [call], Step(encode, st, call);
    var key := DerivedKey(encode, call.origin.account, |log|);
    assert st' == State(|log| + 1, st.offchain[key := call.message], st.events + [MessageSent(key, call.metadata)]);
    forall i | 0 <= i < |log'|
      ensures st'.events[i] == MessageSent(KeyOf(encode, log', i), log'[i].metadata)
      ensures KeyOf(encode, log', i) in st'.offchain && st'.offchain[KeyOf(encode, log', i)] == log'[i].message
    {
      if i < |log| {
        KeysAfterPush(encode, log, call, i);
      }
    }
    forall k | k in st'.offchain
      ensures exists i :: 0 <= i < |log'| && KeyOf(encode, log', i) == k
    {
      if k == key {
        assert KeyOf(encode, log', |log|) == k;
      } else {
        var i :| 0 <= i < |log| && KeyOf(encode, log, i) == k;
        KeysAfterPush(encode, log, call, i);
      }
    }
  }

  /**
   * Every run from genesis, over calls of any origin and content, leaves the
   * state of the log of its admissible calls, cut off only at the counter's
   * limit: the i-th accepted call used number i, and refused calls left no trace.
   */
  lemma {:induction false} RunIsLog<A>(encode: A -> Bytes, calls: seq<Call<A>>)
    ensures Represents(encode, Run(encode, Genesis, calls), Logged(calls))
  {
    if calls == [] {
    } else {
      var n := |calls| - 1;
      var call := calls[n];
      RunIsLog(encode, calls[..n]);
      var before := Logged(calls[..n]);
      if Admissible(call) && |before| < U128_MAX {
        RepresentsPush(encode, Run(encode, Genesis, calls[..n]), before, call);
        assert Logged(calls) == before + [call];
      } else {
        assert Logged(calls) == before;
      }
    }
  }

  /** Every reachable state satisfies the invariant of the class. */
  lemma {:induction false} RunKeepsWellFormed<A>(encode: A -> Bytes, st: State, calls: seq<Call<A>>)
    requires WellFormed(st)
    ensures WellFormed(Run(encode, st, calls))
    ensures forall k :: k in st.offchain ==>
                          && k in Run(encode, st, calls).offchain
                          && Run(encode, st, calls).offchain[k] == st.offchain[k]
    ensures st.events <= Run(encode, st, calls).events
  {
    if calls == [] {
    } else {
      var n := |calls| - 1;
      RunKeepsWellFormed(encode, st, calls[..n]);
      StepKeepsWellFormed(encode, Run(encode, st, calls[..n]), calls[n]);
    }
  }

  /** The keys of all events of a reachable state differ. */
  lemma EventKeysDiffer(st: State, i: nat, j: nat)
    requires WellFormed(st) && i < |st.events| && j < |st.events|
    ensures st.events[i].key == st.events[j].key <==> i == j
  {
    if st.events[i].key == st.events[j].key {
      NumberedOnce(st.events[i].key, i, j);
    }
  }

  /** Runs compose. */
  lemma {:induction false} RunInTwo<A>(encode: A -> Bytes, st: State, one: seq<Call<A>>, two: seq<Call<A>>)
    ensures Run(encode, st, one + two) == Run(encode, Run(encode, st, one), two)
    decreases |two|
  {
    if two == [] {
      assert one + two == one;
    } else {
      var n := |two| - 1;
      RunInTwo(encode, st, one, two[..n]);
      assert (one + two)[..|one + two| - 1] == one + two[..n];
    }
  }

  lemma {:induction false} AdmittedInTwo<A>(one: seq<Call<A>>, two: seq<Call<A>>)
    ensures Admitted(one + two) == Admitted(one) + Admitted(two)
    decreases |two|
  {
    if two == [] {
      assert one + two == one;
    } else {
      var n := |two| - 1;
      AdmittedInTwo(one, two[..n]);
      assert (one + two)[..|one + two| - 1] == one + two[..n];
    }
  }

  /** Once the counter is full nothing changes any more. */
  lemma {:induction false} FullStays<A>(encode: A -> Bytes, st: State, calls: seq<Call<A>>)
    requires st.counter >= U128_MAX
    ensures Run(encode, st, calls) == st
  {
    if calls == [] {
    } else {
      FullStays(encode, st, calls[..|calls| - 1]);
    }
  }

  lemma AdmittedPosition<A>(before: seq<Call<A>>, call: Call<A>, after: seq<Call<A>>)
    requires Admissible(call)
    ensures |Admitted(before)| < |Admitted(before + [call] + after)|
    ensures Admitted(before + [call] + after)[|Admitted(before)|] == call
  {
    AdmittedInTwo(before + [call], after);
    AdmittedInTwo(before, [call]);
    assert Admitted([call]) == [call] by {
      assert [call][..0] == [];
    }
  }

  /**
   * An admissible call anywhere in a run is logged exactly when the counter is
   * not yet full, under the number of admissible calls before it; its event and
   * its stored message are still there at the end of the run.  Once the counter
   * is full, no call changes anything.
   */
  lemma CallIsLogged<A>(encode: A -> Bytes, before: seq<Call<A>>, call: Call<A>, after: seq<Call<A>>)
    requires Admissible(call)
    ensures var st := Run(encode, Genesis, before + [call] + after);
            var i := |Admitted(before)|;
            var key := DerivedKey(encode, call.origin.account, i);
            && (i < U128_MAX <==> Verdict(Run(encode, Genesis, before), call).Ok?)
            && (i < U128_MAX ==>
                  && i < |st.events| && st.events[i] == MessageSent(key, call.metadata)
                  && key in st.offchain && st.offchain[key] == call.message)
            && (i >= U128_MAX ==> st == Run(encode, Genesis, before))
  {
    var calls := before + [call] + after;
    var i := |Admitted(before)|;
    RunIsLog(encode, before);
    AdmittedPosition(before, call, after);
    if i < U128_MAX {
      RunIsLog(encode, calls);
      assert Logged(calls)[i] == call;
      assert KeyOf(encode, Logged(calls), i) == DerivedKey(encode, call.origin.account, i);
    } else {
      FullStays(encode, Run(encode, Genesis, before), [call] + after);
      RunInTwo(encode, Genesis, before, [call] + after);
      assert before + ([call] + after) == calls;
    }
  }
}
