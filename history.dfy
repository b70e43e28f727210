/** What a caller of the builder observes, as values: the characters written
    so far and whether the builder has been disposed. Each public operation of
    the builder is a `Call`; `Step` gives the observable state after a call and
    `Answer` what the call returns or throws. The class in
    value_string_builder.dfy is proved to follow these functions call by call;
    the lemmas here are about whole sequences of calls. Capacity is not part of
    the view: how much the pool hands out is the pool's choice. */
module History {
  import opened Errors

  datatype Call =
    | AppendChar(c: char)              // Append(char)
    | AppendString(s: Option<string>)  // Append(string?)
    | AppendSpan(span: seq<char>)      // Append(ReadOnlySpan<char>)
    | Clear                            // Clear()
    | ToString                         // ToString()
    | Index(index: int)                // this[int]
    | Length                           // Length
    | Dispose                          // Dispose()

  datatype View = View(contents: seq<char>, disposed: bool)

  datatype Reply = Done | Text(text: string) | Char(ch: char) | Count(n: nat) | Failed(error: Error)

  /** A freshly constructed builder. */
  const Initial: View := View([], false)

  /** The calls that begin by checking the disposed flag. The indexer, Length
      and Dispose itself do not check it. */
  predicate Checked(call: Call) {
    call.AppendChar? || call.AppendString? || call.AppendSpan? || call.Clear? || call.ToString?
  }

  /** The characters a call writes when it runs on a live builder. */
  function Added(call: Call): seq<char> {
    match call
    case AppendChar(c) => [c]
    case AppendString(s) => if s.Some? then s.value else []
    case AppendSpan(span) => span
    case _ => []
  }

  function Step(v: View, call: Call): View {
    if v.disposed && Checked(call) then v
    else if call.Clear? then v.(contents := [])
    else if call.Dispose? then v.(disposed := true)
    else if call.AppendChar? || call.AppendString? || call.AppendSpan? then v.(contents := v.contents + Added(call))
    else v
  }

  function Answer(v: View, call: Call): Reply {
    if v.disposed && Checked(call) then Failed(ObjectDisposed)
    else match call
      case ToString => Text(v.contents)
      case Index(i) => if 0 <= i < |v.contents| then Char(v.contents[i]) else Failed(ArgumentOutOfRange)
      case Length => Count(|v.contents|)
      case _ => Done
  }

  /** The view after running `calls` in order from `v`. */
  function Run(v: View, calls: seq<Call>): View
    decreases |calls|
  {
    if calls == [] then v else Run(Step(v, calls[0]), calls[1..])
  }

  /** The replies to `calls`, in order, when run from `v`. */
  function Replies(v: View, calls: seq<Call>): seq<Reply>
    decreases |calls|
  {
    if calls == [] then [] else [Answer(v, calls[0])] + Replies(Step(v, calls[0]), calls[1..])
  }

  /** Everything `calls` writes, concatenated in call order. */
  function Appended(calls: seq<Call>): seq<char>
    decreases |calls|
  {
    if calls == [] then [] else Added(calls[0]) + Appended(calls[1..])
  }

  /** The total number of characters `calls` writes. */
  function AddedLength(calls: seq<Call>): nat
    decreases |calls|
  {
    if calls == [] then 0 else |Added(calls[0])| + AddedLength(calls[1..])
  }

  /** Neither a Clear nor a Dispose occurs in `calls`. */
  predicate NoClearOrDispose(calls: seq<Call>) {
    forall i :: 0 <= i < |calls| ==> !calls[i].Clear? && !calls[i].Dispose?
  }

  /** Running two sequences of calls one after the other is running their concatenation. */
  lemma {:induction false} RunConcat(v: View, a: seq<Call>, b: seq<Call>)
    ensures Run(v, a + b) == Run(Run(v, a), b)
    ensures Replies(v, a + b) == Replies(v, a) + Replies(Run(v, a), b)
    decreases |a|
  {
    if a == [] {
      assert a + b == b;
    } else {
      assert (a + b)[0] == a[0];
      assert (a + b)[1..] == a[1..] + b;
      RunConcat(Step(v, a[0]), a[1..], b);
    }
  }

  /** Every call produces exactly one reply. */
  lemma {:induction false} RepliesLength(v: View, calls: seq<Call>)
    ensures |Replies(v, calls)| == |calls|
    decreases |calls|
  {
    if calls != [] {
      RepliesLength(Step(v, calls[0]), calls[1..]);
    }
  }

  /** Length accuracy: the appended text is as long as the characters counted call by call. */
  lemma {:induction false} AppendedLengthIsCount(calls: seq<Call>)
    ensures |Appended(calls)| == AddedLength(calls)
    decreases |calls|
  {
    if calls != [] {
      AppendedLengthIsCount(calls[1..]);
    }
  }

  /** One append or query on a live builder adds what it writes and nothing else. */
  lemma StepAppends(v: View, call: Call)
    requires !v.disposed && !call.Clear? && !call.Dispose?
    ensures Step(v, call) == View(v.contents + Added(call), false)
  {
  }

  /** Appending, then ToString: on a live builder, calls without a
      Clear or a Dispose leave the contents equal to the old contents followed
      by everything appended, in call order; queries in between change nothing. */
  lemma {:induction false} AppendIdentity(v: View, calls: seq<Call>)
    requires !v.disposed && NoClearOrDispose(calls)
    ensures Run(v, calls) == View(v.contents + Appended(calls), false)
    decreases |calls|
  {
    if calls == [] {
      assert v.contents + [] == v.contents;
    } else {
      assert !calls[0].Clear? && !calls[0].Dispose?;
      StepAppends(v, calls[0]);
      var w := Step(v, calls[0]);
      assert NoClearOrDispose(calls[1..]) by {
        forall i | 0 <= i < |calls[1..]| ensures !calls[1..][i].Clear? && !calls[1..][i].Dispose? {
          assert calls[1..][i] == calls[i + 1];
        }
      }
      AppendIdentity(w, calls[1..]);
      assert v.contents + Appended(calls) == w.contents + Appended(calls[1..]);
    }
  }

  /** From a new builder, appending and then calling ToString and Length
      yields exactly the appended text and its length, whatever growth happened. */
  lemma ToStringAfterAppends(calls: seq<Call>)
    requires NoClearOrDispose(calls)
    ensures Run(Initial, calls + [ToString, Length]) == View(Appended(calls), false)
    ensures Replies(Initial, calls + [ToString, Length])
         == Replies(Initial, calls) + [Text(Appended(calls)), Count(AddedLength(calls))]
  {
    AppendIdentity(Initial, calls);
    assert Initial.contents + Appended(calls) == Appended(calls);
    AppendedLengthIsCount(calls);
    RunConcat(Initial, calls, [ToString, Length]);
  }

  /** Clear empties the builder: whatever came before, the contents afterwards
      are just what was appended after the Clear. */
  lemma ClearResets(v: View, before: seq<Call>, after: seq<Call>)
    requires !Run(v, before).disposed && NoClearOrDispose(after)
    ensures Run(v, before + [Clear] + after) == View(Appended(after), false)
  {
    RunConcat(v, before + [Clear], after);
    RunConcat(v, before, [Clear]);
    var w := Run(v, before + [Clear]);
    assert w == View([], false);
    AppendIdentity(w, after);
    assert w.contents + Appended(after) == Appended(after);
  }

  /** A disposed builder stays as it is: no call changes it, every checked
      call fails with ObjectDisposed, and a further Dispose succeeds doing nothing. */
  lemma {:induction false} DisposedIsFinal(v: View, calls: seq<Call>)
    requires v.disposed
    ensures Run(v, calls) == v
    ensures |Replies(v, calls)| == |calls|
    ensures forall i :: 0 <= i < |calls| ==> Replies(v, calls)[i] == Answer(v, calls[i])
    ensures forall i :: 0 <= i < |calls| && Checked(calls[i]) ==> Replies(v, calls)[i] == Failed(ObjectDisposed)
    ensures forall i :: 0 <= i < |calls| && calls[i].Dispose? ==> Replies(v, calls)[i] == Done
    decreases |calls|
  {
    if calls != [] {
      assert Step(v, calls[0]) == v;
      DisposedIsFinal(v, calls[1..]);
      forall i | 0 < i < |calls| ensures Replies(v, calls)[i] == Answer(v, calls[i]) {
        assert Replies(v, calls)[i] == Replies(v, calls[1..])[i - 1];
        assert calls[1..][i - 1] == calls[i];
      }
    }
  }

  /** Dispose over a whole history: after a Dispose, every later
      Append, ToString or Clear fails, a later Dispose is a no-op, and the
      contents stay what they were when Dispose ran. */
  lemma DisposeInvalidates(v: View, before: seq<Call>, after: seq<Call>)
    ensures Run(v, before + [Dispose] + after) == Run(v, before).(disposed := true)
    ensures |Replies(v, before + [Dispose] + after)| == |before| + 1 + |after|
    ensures Replies(v, before + [Dispose] + after)[|before|] == Done
    ensures forall i :: 0 <= i < |after| && Checked(after[i]) ==>
              Replies(v, before + [Dispose] + after)[|before| + 1 + i] == Failed(ObjectDisposed)
    ensures forall i :: 0 <= i < |after| && after[i].Dispose? ==>
              Replies(v, before + [Dispose] + after)[|before| + 1 + i] == Done
  {
    var u := Run(v, before);
    var d := u.(disposed := true);
    RunConcat(v, before + [Dispose], after);
    RunConcat(v, before, [Dispose]);
    assert Run(v, before + [Dispose]) == d;
    assert Replies(v, before + [Dispose]) == Replies(v, before) + [Done];
    DisposedIsFinal(d, after);
    RepliesLength(v, before);
    var rs := Replies(v, before + [Dispose] + after);
    assert rs == Replies(v, before) + [Done] + Replies(d, after);
  }

  /** The growth test as a history: "Test" then "Longer", ToString, Dispose,
      and ToString again, which fails. */
  lemma GrowTestHistory()
    ensures Replies(Initial, [AppendString(Some("Test")), AppendString(Some("Longer")), ToString, Dispose, ToString])
         == [Done, Done, Text("TestLonger"), Done, Failed(ObjectDisposed)]
    ensures Run(Initial, [AppendString(Some("Test")), AppendString(Some("Longer")), ToString, Dispose, ToString])
         == View("TestLonger", true)
  {
    var c0, c1 := AppendString(Some("Test")), AppendString(Some("Longer"));
    var v1, v2, v3 := View("Test", false), View("TestLonger", false), View("TestLonger", true);
    assert Step(Initial, c0) == v1;
    assert Step(v1, c1) == v2;
    var tail := [ToString];
    assert Run(v3, tail) == v3 && Replies(v3, tail) == [Failed(ObjectDisposed)];
    var calls := [Dispose] + tail;
    assert calls[1..] == tail;
    assert Run(v2, calls) == v3 && Replies(v2, calls) == [Done, Failed(ObjectDisposed)];
    var calls2 := [ToString] + calls;
    assert calls2[1..] == calls;
    assert Run(v2, calls2) == v3 && Replies(v2, calls2) == [Text("TestLonger"), Done, Failed(ObjectDisposed)];
    var calls3 := [c1] + calls2;
    assert calls3[1..] == calls2;
    assert Run(v1, calls3) == v3 && Replies(v1, calls3) == [Done, Text("TestLonger"), Done, Failed(ObjectDisposed)];
    var calls4 := [c0] + calls3;
    assert calls4[1..] == calls3;
    assert calls4 == [AppendString(Some("Test")), AppendString(Some("Longer")), ToString, Dispose, ToString];
  }
}
