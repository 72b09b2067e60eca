/** The message admission filter of the chat client in firebaseBugSolution.js.
    Every `child_added` notification carries a message; the handler passes it
    to the UI only when its timestamp is strictly greater than the high-water
    mark `lastMessageTimestamp`, and then raises the mark to that timestamp.

    The module first states the filter on values (Step, HighWater, Admitted)
    and proves what it promises about them; the class AdmissionFilter then
    models the handler as it runs, mutating its one field in place, and is
    proved against those functions. */
module ChatAdmission {

  /** A message record as pushed into the `messages` list: its text, carried
      opaquely, and the timestamp the database server assigned to it. */
  datatype Message = Message(text: string, timestamp: int)

  /** The handler's test: a message is newer than the mark when its timestamp
      is strictly greater. */
  predicate Admits(last: int, m: Message) {
    m.timestamp > last
  }

  /** The mark after one notification, as the handler computes it. */
  function Step(last: int, m: Message): (r: int)
    ensures r >= last && r >= m.timestamp
    ensures r == last || r == m.timestamp
  {
    if Admits(last, m) then m.timestamp else last
  }

  /** The mark after a whole delivery sequence, starting from `last`. */
  function HighWater(last: int, ms: seq<Message>): int
    decreases |ms|
  {
    if ms == [] then last else HighWater(Step(last, ms[0]), ms[1..])
  }

  /** The messages handed to the UI, in order, when `ms` is delivered
      starting from the mark `last`. */
  function Admitted(last: int, ms: seq<Message>): seq<Message>
    decreases |ms|
  {
    if ms == [] then []
    else if Admits(last, ms[0]) then [ms[0]] + Admitted(ms[0].timestamp, ms[1..])
    else Admitted(last, ms[1..])
  }

  predicate StrictlyIncreasing(ms: seq<Message>) {
    forall i, j :: 0 <= i < j < |ms| ==> ms[i].timestamp < ms[j].timestamp
  }

  /** `a` is `b` with some elements dropped, the rest kept in order. */
  predicate Subsequence(a: seq<Message>, b: seq<Message>)
    decreases |b|
  {
    if a == [] then true
    else if b == [] then false
    else (a[0] == b[0] && Subsequence(a[1..], b[1..])) || Subsequence(a, b[1..])
  }

  /** Delivering `a` and then `b` is delivering `a` and then delivering `b`
      from the mark that `a` left behind. */
  lemma {:induction false} DeliverAppend(last: int, a: seq<Message>, b: seq<Message>)
    ensures HighWater(last, a + b) == HighWater(HighWater(last, a), b)
    ensures Admitted(last, a + b) == Admitted(last, a) + Admitted(HighWater(last, a), b)
    decreases |a|
  {
    if a != [] {
      assert (a + b)[0] == a[0];
      assert (a + b)[1..] == a[1..] + b;
      DeliverAppend(Step(last, a[0]), a[1..], b);
    } else {
      assert a + b == b;
    }
  }

  /** One more notification: the message reaches the UI if and only if its
      timestamp is strictly above the current mark, and the mark then becomes
      that timestamp; otherwise neither the UI log nor the mark changes. */
  lemma {:induction false} DeliverOne(last: int, pre: seq<Message>, m: Message)
    ensures HighWater(last, pre + [m])
         == if m.timestamp > HighWater(last, pre) then m.timestamp else HighWater(last, pre)
    ensures Admitted(last, pre + [m])
         == Admitted(last, pre) + if m.timestamp > HighWater(last, pre) then [m] else []
  {
    DeliverAppend(last, pre, [m]);
    var h := HighWater(last, pre);
    assert [m][1..] == [];
    assert HighWater(h, [m]) == HighWater(Step(h, m), []);
    assert Admitted(h, [m]) == if m.timestamp > h then [m] + Admitted(m.timestamp, []) else Admitted(h, []);
  }

  /** The mark never decreases, ends at or above every delivered timestamp,
      and is either the initial mark or one of the delivered timestamps: it is
      the maximum of the initial mark and all delivered timestamps. */
  lemma {:induction false} HighWaterIsMax(last: int, ms: seq<Message>)
    ensures HighWater(last, ms) >= last
    ensures forall i :: 0 <= i < |ms| ==> ms[i].timestamp <= HighWater(last, ms)
    ensures HighWater(last, ms) == last
         || exists i :: 0 <= i < |ms| && ms[i].timestamp == HighWater(last, ms)
    decreases |ms|
  {
    if ms != [] {
      var s := Step(last, ms[0]);
      HighWaterIsMax(s, ms[1..]);
      var h := HighWater(last, ms);
      assert h == HighWater(s, ms[1..]);
      forall i | 0 <= i < |ms| ensures ms[i].timestamp <= h {
        if i > 0 { assert ms[i] == ms[1..][i - 1]; }
      }
      if h != last && h != ms[0].timestamp {
        assert h != s;
        var k :| 0 <= k < |ms[1..]| && ms[1..][k].timestamp == h;
        assert ms[k + 1].timestamp == h;
      }
    }
  }

  /** The admitted messages, in admission order, have strictly increasing
      timestamps, all above the initial mark and none above the final one;
      the final mark is the timestamp of the last admitted message, or the
      initial mark when nothing was admitted. */
  lemma {:induction false} AdmittedIncreasing(last: int, ms: seq<Message>)
    ensures StrictlyIncreasing(Admitted(last, ms))
    ensures forall i :: 0 <= i < |Admitted(last, ms)| ==>
              last < Admitted(last, ms)[i].timestamp <= HighWater(last, ms)
    ensures HighWater(last, ms)
         == if Admitted(last, ms) == [] then last
            else Admitted(last, ms)[|Admitted(last, ms)| - 1].timestamp
    decreases |ms|
  {
    if ms != [] {
      var s := Step(last, ms[0]);
      AdmittedIncreasing(s, ms[1..]);
      if Admits(last, ms[0]) {
        var rest := Admitted(s, ms[1..]);
        var r := Admitted(last, ms);
        assert r == [ms[0]] + rest;
        forall i | 0 <= i < |r| ensures last < r[i].timestamp <= HighWater(last, ms) {
          if i > 0 { assert r[i] == rest[i - 1]; }
        }
        forall i, j | 0 <= i < j < |r| ensures r[i].timestamp < r[j].timestamp {
          assert r[j] == rest[j - 1];
          if i > 0 { assert r[i] == rest[i - 1]; }
        }
      }
    }
  }

  /** Only delivered messages are admitted, and in delivery order. */
  lemma {:induction false} AdmittedIsSubsequence(last: int, ms: seq<Message>)
    ensures Subsequence(Admitted(last, ms), ms)
    decreases |ms|
  {
    if ms != [] {
      var s := Step(last, ms[0]);
      AdmittedIsSubsequence(s, ms[1..]);
      var r := Admitted(last, ms);
      if Admits(last, ms[0]) {
        assert r[0] == ms[0] && r[1..] == Admitted(s, ms[1..]);
      } else if r != [] {
        assert r == Admitted(s, ms[1..]);
      }
    }
  }

  /** A message no newer than the mark at its arrival, such as an older
      message replayed after a newer one, leaves no trace: neither the UI log
      nor the mark differ from a delivery that skipped it. */
  lemma {:induction false} StaleIsDropped(last: int, pre: seq<Message>, m: Message, post: seq<Message>)
    requires m.timestamp <= HighWater(last, pre)
    ensures Admitted(last, pre + [m] + post) == Admitted(last, pre + post)
    ensures HighWater(last, pre + [m] + post) == HighWater(last, pre + post)
  {
    var h := HighWater(last, pre);
    assert pre + [m] + post == pre + ([m] + post);
    DeliverAppend(last, pre, [m] + post);
    DeliverAppend(last, pre, post);
    assert ([m] + post)[0] == m && ([m] + post)[1..] == post;
    assert Admitted(h, [m] + post) == Admitted(h, post);
    assert HighWater(h, [m] + post) == HighWater(h, post);
  }

  /** Of two messages with equal timestamps, the second is never admitted,
      whatever was delivered between them: ties go to the first. */
  lemma {:induction false} TieFirstWins(last: int, pre: seq<Message>, m1: Message, mid: seq<Message>,
                                        m2: Message, post: seq<Message>)
    requires m1.timestamp == m2.timestamp
    ensures Admitted(last, pre + [m1] + mid + [m2] + post) == Admitted(last, pre + [m1] + mid + post)
    ensures HighWater(last, pre + [m1] + mid + [m2] + post) == HighWater(last, pre + [m1] + mid + post)
  {
    DeliverOne(last, pre, m1);
    DeliverAppend(last, pre + [m1], mid);
    HighWaterIsMax(HighWater(last, pre + [m1]), mid);
    StaleIsDropped(last, pre + [m1] + mid, m2, post);
  }

  /** A message delivered again, at any later point, is not admitted a
      second time. */
  lemma {:induction false} DuplicateAdmittedOnce(last: int, pre: seq<Message>, m: Message, mid: seq<Message>,
                                                 post: seq<Message>)
    ensures Admitted(last, pre + [m] + mid + [m] + post) == Admitted(last, pre + [m] + mid + post)
    ensures HighWater(last, pre + [m] + mid + [m] + post) == HighWater(last, pre + [m] + mid + post)
  {
    TieFirstWins(last, pre, m, mid, m, post);
  }

  /** A delivery sequence whose timestamps strictly increase and start above
      the mark is admitted in full, in order, and the mark ends at its last
      timestamp. */
  lemma {:induction false} IncreasingAllAdmitted(last: int, ms: seq<Message>)
    requires StrictlyIncreasing(ms)
    requires ms != [] ==> ms[0].timestamp > last
    ensures Admitted(last, ms) == ms
    ensures HighWater(last, ms) == if ms == [] then last else ms[|ms| - 1].timestamp
    decreases |ms|
  {
    if ms != [] {
      var rest := ms[1..];
      assert StrictlyIncreasing(rest) by {
        forall i, j | 0 <= i < j < |rest| ensures rest[i].timestamp < rest[j].timestamp {
          assert rest[i] == ms[i + 1] && rest[j] == ms[j + 1];
        }
      }
      if rest != [] { assert rest[0] == ms[1]; }
      IncreasingAllAdmitted(ms[0].timestamp, rest);
      assert [ms[0]] + rest == ms;
    }
  }

  /** The replay scenario: message A stamped 100 and then an older message B
      stamped 90; B is dropped and the mark stays at 100. */
  lemma {:induction false} OutOfOrderScenario(last: int, a: Message, b: Message)
    requires last < 100 && a.timestamp == 100 && b.timestamp == 90
    ensures Admitted(last, [a, b]) == [a]
    ensures HighWater(last, [a, b]) == 100
  {
    assert [a, b][1..] == [b];
    assert [b][1..] == [];
    assert Admitted(100, [b]) == [];
    assert HighWater(100, [b]) == 100;
  }

  /** The `child_added` subscription with its state `lastMessageTimestamp`.
      The ghost log `admitted` stands for the calls to `updateChatUI`;
      `delivered` records every notification so far and `initial` the mark
      the session started with. */
  class AdmissionFilter {
    var last: int
    ghost var initial: int
    ghost var delivered: seq<Message>
    ghost var admitted: seq<Message>

    /** The mark and the UI log are those the delivery history determines. */
    ghost predicate Valid()
      reads this
    {
      last == HighWater(initial, delivered) && admitted == Admitted(initial, delivered)
    }

    /** Starts a session whose mark is `initial`. */
    constructor (initial: int)
      ensures Valid()
      ensures this.initial == initial && last == initial
      ensures delivered == [] && admitted == []
    {
      last := initial;
      this.initial := initial;
      delivered := [];
      admitted := [];
    }

    /** The `child_added` callback for one message. */
    method OnChildAdded(m: Message) returns (accepted: bool)
      requires Valid()
      modifies this
      ensures Valid()
      ensures initial == old(initial) && delivered == old(delivered) + [m]
      ensures accepted <==> m.timestamp > old(last)
      ensures last == if accepted then m.timestamp else old(last)
      ensures admitted == old(admitted) + if accepted then [m] else []
    {
      DeliverOne(initial, delivered, m);
      accepted := m.timestamp > last;
      if accepted {
        admitted := admitted + [m];
        last := m.timestamp;
      }
      delivered := delivered + [m];
    }

    /** Runs the callback on every message of a delivery sequence, in order. */
    method ProcessAll(ms: seq<Message>)
      requires Valid()
      modifies this
      ensures Valid()
      ensures initial == old(initial) && delivered == old(delivered) + ms
      ensures last == HighWater(old(last), ms)
      ensures admitted == old(admitted) + Admitted(old(last), ms)
    {
      var i := 0;
      while i < |ms|
        invariant 0 <= i <= |ms|
        invariant Valid()
        invariant initial == old(initial) && delivered == old(delivered) + ms[..i]
        invariant last == HighWater(old(last), ms[..i])
        invariant admitted == old(admitted) + Admitted(old(last), ms[..i])
      {
        DeliverOne(old(last), ms[..i], ms[i]);
        var _ := OnChildAdded(ms[i]);
        assert ms[..i + 1] == ms[..i] + [ms[i]];
        i := i + 1;
      }
      assert ms[..i] == ms;
    }
  }
}
