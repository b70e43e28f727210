# ValueStringBuilder, modelled and verified in Dafny

`ValueStringBuilder` (src/Aloe.Utils.Text/ValueStringBuilder.cs) is a
low-allocation string builder. It first writes into a buffer the caller
supplies, typically `stackalloc char[256]`. When an append does not fit, it
rents a larger array from `ArrayPool<char>.Shared`, copies the written
prefix into it, hands back the array it rented before (if any) and adopts
the new one. It tracks the written length in `_pos`. `Dispose` hands the
rented array back and marks the builder disposed. After that, the appends,
`ToString` and `Clear` throw `ObjectDisposedException`, while the indexer,
`Length`, `Capacity` and `AsSpan` keep reading the fields without a check.

The model has five files:

- `errors.dfy` (module `Errors`): the `Option`, `Outcome` and `Result`
  wrappers, and the two exceptions as an `Error` datatype: `ObjectDisposed`
  and `ArgumentOutOfRange`. A thrown exception becomes a `Fail`/`Err` return.
- `array_pool.dfy` (module `ArrayPools`): the pool as a class. Its ghost set
  `outstanding` holds the arrays rented and not yet returned. `Rent(n)`
  gives an array of at least `n` slots; `Return(a)` requires an outstanding
  `a`.
- `value_string_builder.dfy` (module `Text`): the struct as class
  `ValueStringBuilder`.
  - It keeps the source's four fields: `arrayToReturnToPool` (nullable),
    `chars`, `pos` and `disposed`.
  - The ghost `rentedHere` holds the arrays this builder has rented and not
    handed back. `Valid()` ties it to the nullable handle, so at most one
    rented array is held and the caller's buffer is never among them.
  - Every operation is a method over that state. Each public mutating method
    states its new state both concretely (fields, slots, pool) and as a
    `History` step.
- `history.dfy` (module `History`): what a caller observes, as values.
  - `View` is the written characters plus the disposed flag; `Call` is one
    public operation.
  - `Step` and `Answer` give the next view and the reply to a call. `Run` and
    `Replies` extend them to sequences of calls.
  - Lemmas prove, over whole histories, that ToString after appends gives
    their concatenation, that Length counts the appended characters, that
    Clear resets the contents, and that after Dispose the checked calls fail.
  - `Text.Perform` and `Text.Replay` prove that the class follows these
    functions call by call.
- `scenarios.dfy` (module `Scenarios`): the repository's xUnit tests as
  client methods.
  - Each test is proved for arbitrary text and an initial buffer of any size,
    so with and without growth. It is then instantiated with the test's own
    literals.
  - Each client disposes its builder and checks that the pool has all its
    arrays back.

`Append(string?)` repeats the body of `Append(ReadOnlySpan<char>)`; the
model repeats it too, and shares the `EnsureRoom` and `CopyAtEnd` steps
between them.

## Model

| member | source | states |
|---|---|---|
| ArrayPools.ArrayPool.Rent | src/Aloe.Utils.Text/ValueStringBuilder.cs:194 | returns an array of at least the requested length that was not outstanding, and records it as outstanding |
| ArrayPools.ArrayPool.Return | src/Aloe.Utils.Text/ValueStringBuilder.cs:199 | only an outstanding array may be returned, and afterwards it is no longer outstanding |
| Text.NewCapacity | src/Aloe.Utils.Text/ValueStringBuilder.cs:193 | the requested capacity is at least twice the current capacity and at least the required capacity, and is one of the two (their maximum) |
| Text.ToUInt32 | src/Aloe.Utils.Text/ValueStringBuilder.cs:68 | the `(uint)` cast of a 32-bit int is below 2^32, is the value itself for non-negative ints and at least 2^31 for negative ones |
| Text.UnsignedIndexCheck | src/Aloe.Utils.Text/ValueStringBuilder.cs:68-71 | the single unsigned comparison `(uint)index >= (uint)_pos` holds exactly when index < 0 or index >= length |
| Text.ValueStringBuilder.Valid | src/Aloe.Utils.Text/ValueStringBuilder.cs:29-39 | the invariant implies Length <= Capacity, that this builder holds at most one rented array, that the array is outstanding at the pool and is not the caller's buffer, and that nothing is held once disposed |
| Text.ValueStringBuilder.constructor | src/Aloe.Utils.Text/ValueStringBuilder.cs:45-51 | a new builder writes into the caller's buffer with Length 0, Capacity equal to the buffer's size, no rented array and the disposed flag clear |
| Text.ValueStringBuilder.Length | src/Aloe.Utils.Text/ValueStringBuilder.cs:54 | the written length never exceeds the capacity |
| Text.ValueStringBuilder.Capacity | src/Aloe.Utils.Text/ValueStringBuilder.cs:57 | the size of the current storage, read without a disposed check; on a valid builder it is at least Length |
| Text.ValueStringBuilder.AsSpan | src/Aloe.Utils.Text/ValueStringBuilder.cs:155 | the written characters, as many as Length, read without a disposed check |
| Text.ValueStringBuilder.EnsureNotDisposed | src/Aloe.Utils.Text/ValueStringBuilder.cs:210-216 | fails, with ObjectDisposed, exactly when the builder is disposed |
| Text.ValueStringBuilder.Get | src/Aloe.Utils.Text/ValueStringBuilder.cs:64-75 | returns the character at index when 0 <= index < Length and ArgumentOutOfRange otherwise, without a disposed check, as History.Answer predicts |
| Text.ValueStringBuilder.ToString | src/Aloe.Utils.Text/ValueStringBuilder.cs:145-149 | returns exactly the written characters on a live builder and ObjectDisposed on a disposed one; it changes nothing, so it can be repeated and appended after |
| Text.ValueStringBuilder.AppendChar | src/Aloe.Utils.Text/ValueStringBuilder.cs:82-92 | fails and changes nothing when disposed. Otherwise the contents become old contents + [c] and the builder grows exactly when Length >= Capacity, to at least NewCapacity(Capacity, Length + 1) slots. Without growth only the slot at the old Length changes. Capacity never decreases |
| Text.ValueStringBuilder.AppendString | src/Aloe.Utils.Text/ValueStringBuilder.cs:99-115 | fails and changes nothing when disposed. A null or empty string changes nothing. Otherwise the contents become old contents + s, with growth exactly when Length + \|s\| > Capacity. Only the new slots change when there is no growth |
| Text.ValueStringBuilder.AppendSpan | src/Aloe.Utils.Text/ValueStringBuilder.cs:122-138 | fails and changes nothing when disposed. An empty span changes nothing. Otherwise the contents become old contents + span, with growth exactly when Length + \|span\| > Capacity. Only the new slots change when there is no growth |
| Text.ValueStringBuilder.EnsureRoom | src/Aloe.Utils.Text/ValueStringBuilder.cs:107-111 | grows exactly when the required capacity exceeds Capacity, keeping the written prefix and Length; afterwards the required capacity fits, and without growth nothing changes |
| Text.ValueStringBuilder.CopyAtEnd | src/Aloe.Utils.Text/ValueStringBuilder.cs:136 | `span.CopyTo(_chars.Slice(_pos))`: the slots from Length on hold the span, and every other slot is unchanged |
| Text.ValueStringBuilder.Clear | src/Aloe.Utils.Text/ValueStringBuilder.cs:161-166 | fails and changes nothing when disposed. Otherwise Length becomes 0 and slots [0, old Length) are zeroed. The storage, its capacity and the slots beyond the old Length are unchanged |
| Text.ValueStringBuilder.Dispose | src/Aloe.Utils.Text/ValueStringBuilder.cs:171-185 | hands the rented array, if any, back to the pool, clears the handle and sets the disposed flag. The storage reference and Length stay as they were. A second call changes nothing |
| Text.ValueStringBuilder.Grow | src/Aloe.Utils.Text/ValueStringBuilder.cs:191-204 | adopts a fresh rented array of at least max(2·Capacity, required) slots, keeps the written prefix and Length, hands back the previously rented array and never the caller's buffer; afterwards exactly one array is held |
| Text.Perform | src/Aloe.Utils.Text/ValueStringBuilder.cs:54-185 | every public operation moves the builder's view as History.Step says and replies as History.Answer says; Capacity never decreases; the pool changes only by the builder's own lease |
| Text.Replay | src/Aloe.Utils.Text/ValueStringBuilder.cs:19-23 | any sequence of calls, such as those inside a `using` block before its Dispose, ends in the view that History.Run predicts, with the replies History.Replies predicts, whatever growth happened; Capacity never decreases |
| History.RepliesLength | src/Aloe.Utils.Text/ValueStringBuilder.cs:54-185 | every call of a history produces exactly one reply |
| History.AppendedLengthIsCount | src/Aloe.Utils.Text/ValueStringBuilder.cs:114 | the text appended by a history is as long as the sum of the lengths the appends add to `_pos` |
| History.AppendIdentity | src/Aloe.Utils.Text/ValueStringBuilder.cs:82-138 | on a live builder, any history without Clear or Dispose leaves the old contents followed by everything appended, in call order; queries in between change nothing |
| History.ToStringAfterAppends | src/Aloe.Utils.Text/ValueStringBuilder.cs:145-149 | from a new builder, appends followed by ToString and Length reply with exactly the concatenated text and its total length |
| History.ClearResets | src/Aloe.Utils.Text/ValueStringBuilder.cs:161-166 | after a Clear on a live builder, the contents are exactly what is appended after it |
| History.DisposedIsFinal | src/Aloe.Utils.Text/ValueStringBuilder.cs:210-216 | once disposed, no call changes the view, every append, ToString and Clear fails with ObjectDisposed, and a further Dispose replies Done |
| History.DisposeInvalidates | src/Aloe.Utils.Text.Tests/ValueStringBuilderTest.cs:91-127 | in any history, the calls after a Dispose leave the contents as Dispose found them; the checked ones fail with ObjectDisposed and a second Dispose succeeds |
| History.GrowTestHistory | src/Aloe.Utils.Text.Tests/ValueStringBuilderTest.cs:129-136 | the history "Test", "Longer", ToString, Dispose, ToString replies Done, Done, "TestLonger", Done, ObjectDisposed |
| Scenarios.AppendChars | src/Aloe.Utils.Text.Tests/ValueStringBuilderTest.cs:12-19 | three Append(char) calls then ToString give the three characters in order, from a buffer of any size, including an empty one |
| Scenarios.AppendCharTest | src/Aloe.Utils.Text.Tests/ValueStringBuilderTest.cs:12-19 | 'a', 'b', 'c' into 256 slots give "abc" |
| Scenarios.AppendStrings | src/Aloe.Utils.Text.Tests/ValueStringBuilderTest.cs:22-29 | three Append(string) calls then ToString give their concatenation, from a buffer of any size |
| Scenarios.AppendStringTest | src/Aloe.Utils.Text.Tests/ValueStringBuilderTest.cs:22-29 | "Hello", " ", "World" give "Hello World" |
| Scenarios.AppendNothing | src/Aloe.Utils.Text/ValueStringBuilder.cs:102-105 | a null string and an empty string both succeed, add nothing, and leave the caller's buffer in use |
| Scenarios.AppendSpanThenToString | src/Aloe.Utils.Text.Tests/ValueStringBuilderTest.cs:32-38 | Append(span) then ToString gives the span, from a buffer of any size |
| Scenarios.AppendSpanTest | src/Aloe.Utils.Text.Tests/ValueStringBuilderTest.cs:32-38 | the span "Test" gives "Test" |
| Scenarios.ClearAfterAppend | src/Aloe.Utils.Text.Tests/ValueStringBuilderTest.cs:41-47 | after an append and a Clear, ToString is empty and Length is 0; when the text fitted, Capacity is still the caller's buffer size |
| Scenarios.ClearTest | src/Aloe.Utils.Text.Tests/ValueStringBuilderTest.cs:41-47 | "Test" then Clear gives "", Length 0 and Capacity 256 |
| Scenarios.LengthAfterAppend | src/Aloe.Utils.Text.Tests/ValueStringBuilderTest.cs:50-55 | Length after one append is the appended text's length |
| Scenarios.LengthTest | src/Aloe.Utils.Text.Tests/ValueStringBuilderTest.cs:50-55 | Length after "Test" is 4 |
| Scenarios.InitialCapacity | src/Aloe.Utils.Text.Tests/ValueStringBuilderTest.cs:58-62 | a new builder's Capacity is the caller's buffer size |
| Scenarios.CapacityTest | src/Aloe.Utils.Text.Tests/ValueStringBuilderTest.cs:58-62 | a new builder over 256 slots has Capacity 256 |
| Scenarios.IndexAfterAppend | src/Aloe.Utils.Text.Tests/ValueStringBuilderTest.cs:65-89 | after one append, the indexer gives character i of the text for 0 <= i < length and ArgumentOutOfRange otherwise |
| Scenarios.IndexerTest | src/Aloe.Utils.Text.Tests/ValueStringBuilderTest.cs:65-73 | after "Test", indices 0 to 3 give 'T', 'e', 's', 't' |
| Scenarios.IndexerOutOfRangeTest | src/Aloe.Utils.Text.Tests/ValueStringBuilderTest.cs:76-89 | after "Test", index 4 gives ArgumentOutOfRange |
| Scenarios.UseAfterDispose | src/Aloe.Utils.Text.Tests/ValueStringBuilderTest.cs:92-127 | after Dispose, Append, ToString and Clear fail with ObjectDisposed and a second Dispose does not fail |
| Scenarios.DisposeTest | src/Aloe.Utils.Text.Tests/ValueStringBuilderTest.cs:92-127 | the same with "Test" over 256 slots |
| Scenarios.GrowAcrossAppends | src/Aloe.Utils.Text.Tests/ValueStringBuilderTest.cs:130-136 | two appends give their concatenation and a capacity that holds it, which is still the caller's buffer size when the text fits; the pool holds at most one array of this builder at any time |
| Scenarios.GrowTest | src/Aloe.Utils.Text.Tests/ValueStringBuilderTest.cs:130-136 | 4 slots, "Test" then "Longer", give "TestLonger" and Capacity >= 10 |
| Scenarios.ToStringIsACopy | src/Aloe.Utils.Text/ValueStringBuilder.cs:14 | ToString can be repeated with the same result, and a later append leaves an earlier result as it was |
| Scenarios.ReplayGrowTest | src/Aloe.Utils.Text.Tests/ValueStringBuilderTest.cs:129-136 | the growth test replayed as one history on a 4-slot builder replies Done, Done, "TestLonger", Done, ObjectDisposed |

## Left out

- `ArrayPool<char>.Shared` internals: its buckets, reuse of returned arrays
  and thread safety. The pool is a contract over a ghost set of outstanding
  arrays. The model's `Rent` allocates a fresh array; the real pool may hand
  back an array returned earlier.
- Another pool client writing into an array the builder has returned. After
  Dispose, `AsSpan`, the indexer and `Length` still read the returned array,
  as in the source. The model reads the last contents there because nothing
  else writes the array.
- 32-bit `int` overflow in `_pos + s.Length`, `_pos + 1` and
  `_chars.Length * 2`: lengths and capacities are unbounded integers. The
  indexer's signed/unsigned cast is modelled separately (`Text.ToUInt32`,
  `Text.UnsignedIndexCheck`), since the method's body compares integers
  directly.
- The lifetime rules of `stackalloc`, `Span<char>` and `ref struct`: the
  caller's buffer is an `array<char>` that the builder never hands to the
  pool. Copying the struct by value is not modelled; the builder is one
  object.
- `AsSpan` returns a live view aliasing the storage. The model returns the
  characters as a value, so writing through the span is not modelled.
- The exception types become `Error` values returned as results; their
  messages and parameter names are left out.
- `Append(ReadOnlySpan<char>)` takes its argument as a `seq<char>`, so a span
  that aliases the builder's own storage is not modelled.
- Characters: each Dafny `char` stands for one UTF-16 code unit of C#'s
  `char`. Dafny's `char` is a Unicode scalar value, so text outside the Basic
  Multilingual Plane and lone surrogates cannot be written code unit by code
  unit, and `Length` and the indexer count Dafny characters. The builder never
  inspects character values, so no contract depends on them.
- The xUnit harness itself is not modelled.
