/** The repository's unit tests for the builder, restated as client code that
    Dafny proves. Each test is first proved for arbitrary text and an initial
    buffer of any size (so with or without growth), and then instantiated with
    the test's own literals. Every builder ends with Dispose, as a `using`
    block would, and each client checks that the pool then has every rented
    array back. */
module Scenarios {
  import opened Errors
  import opened ArrayPools
  import opened Text
  import History

  /** Append(char) three times, then ToString: the three characters in order. */
  method AppendChars(capacity: nat, a: char, b: char, c: char) returns (s: Result<string>)
    ensures s == Ok([a, b, c])
  {
    var pool := new ArrayPool();
    var buffer := new char[capacity];
    var sb := new ValueStringBuilder(buffer, pool);
    var r := sb.AppendChar(a);
    assert sb.AsSpan() == [a];
    r := sb.AppendChar(b);
    assert sb.AsSpan() == [a, b];
    r := sb.AppendChar(c);
    assert sb.AsSpan() == [a, b, c];
    s := sb.ToString();
    assert pool.outstanding - sb.rentedHere == {};
    sb.Dispose();
    assert pool.outstanding == {};
  }

  method AppendCharTest() returns (s: Result<string>)
    ensures s == Ok("abc")
  {
    s := AppendChars(256, 'a', 'b', 'c');
    assert ['a', 'b', 'c'] == "abc";
  }

  /** Append(string) three times, then ToString: the concatenation. */
  method AppendStrings(capacity: nat, x: string, y: string, z: string) returns (s: Result<string>)
    ensures s == Ok(x + y + z)
  {
    var pool := new ArrayPool();
    var buffer := new char[capacity];
    var sb := new ValueStringBuilder(buffer, pool);
    var r := sb.AppendString(Some(x));
    assert sb.AsSpan() == x;
    r := sb.AppendString(Some(y));
    assert sb.AsSpan() == x + y;
    r := sb.AppendString(Some(z));
    assert sb.AsSpan() == x + y + z;
    s := sb.ToString();
    assert pool.outstanding - sb.rentedHere == {};
    sb.Dispose();
    assert pool.outstanding == {};
  }

  method AppendStringTest() returns (s: Result<string>)
    ensures s == Ok("Hello World")
  {
    s := AppendStrings(256, "Hello", " ", "World");
    assert "Hello" + " " + "World" == "Hello World";
  }

  /** A null string adds nothing and does not fail, and neither does an
      empty one; neither touches the storage. */
  method AppendNothing(capacity: nat) returns (r1: Outcome, r2: Outcome, s: Result<string>, moved: bool)
    ensures r1 == Pass && r2 == Pass && s == Ok([]) && !moved
  {
    var pool := new ArrayPool();
    var buffer := new char[capacity];
    var sb := new ValueStringBuilder(buffer, pool);
    r1 := sb.AppendString(None);
    r2 := sb.AppendString(Some([]));
    s := sb.ToString();
    moved := sb.chars != buffer;
    sb.Dispose();
    assert pool.outstanding == {};
  }

  /** Append(ReadOnlySpan) then ToString: the span's characters. */
  method AppendSpanThenToString(capacity: nat, span: seq<char>) returns (s: Result<string>)
    ensures s == Ok(span)
  {
    var pool := new ArrayPool();
    var buffer := new char[capacity];
    var sb := new ValueStringBuilder(buffer, pool);
    var r := sb.AppendSpan(span);
    assert sb.AsSpan() == span;
    s := sb.ToString();
    assert pool.outstanding - sb.rentedHere == {};
    sb.Dispose();
    assert pool.outstanding == {};
  }

  method AppendSpanTest() returns (s: Result<string>)
    ensures s == Ok("Test")
  {
    s := AppendSpanThenToString(256, "Test");
  }

  /** Append then Clear: ToString is empty and Length is 0; when the text fitted,
      Capacity is still that of the caller's buffer. */
  method ClearAfterAppend(capacity: nat, x: string) returns (s: Result<string>, length: nat, cap: nat)
    ensures s == Ok([]) && length == 0
    ensures |x| <= capacity ==> cap == capacity
  {
    var pool := new ArrayPool();
    var buffer := new char[capacity];
    var sb := new ValueStringBuilder(buffer, pool);
    var r := sb.AppendString(Some(x));
    r := sb.Clear();
    s := sb.ToString();
    length := sb.Length();
    cap := sb.Capacity();
    assert pool.outstanding - sb.rentedHere == {};
    sb.Dispose();
    assert pool.outstanding == {};
  }

  method ClearTest() returns (s: Result<string>, length: nat, cap: nat)
    ensures s == Ok("") && length == 0 && cap == 256
  {
    s, length, cap := ClearAfterAppend(256, "Test");
  }

  /** Length after one append is the length of the appended text. */
  method LengthAfterAppend(capacity: nat, x: string) returns (n: nat)
    ensures n == |x|
  {
    var pool := new ArrayPool();
    var buffer := new char[capacity];
    var sb := new ValueStringBuilder(buffer, pool);
    var r := sb.AppendString(Some(x));
    n := sb.Length();
    assert pool.outstanding - sb.rentedHere == {};
    sb.Dispose();
    assert pool.outstanding == {};
  }

  method LengthTest() returns (n: nat)
    ensures n == 4
  {
    n := LengthAfterAppend(256, "Test");
  }

  /** A new builder's Capacity is the size of the caller's buffer. */
  method InitialCapacity(capacity: nat) returns (c: nat)
    ensures c == capacity
  {
    var pool := new ArrayPool();
    var buffer := new char[capacity];
    var sb := new ValueStringBuilder(buffer, pool);
    c := sb.Capacity();
    sb.Dispose();
    assert pool.outstanding == {};
  }

  method CapacityTest() returns (c: nat)
    ensures c == 256
  {
    c := InitialCapacity(256);
  }

  /** The indexer after one append: the character at `i` of the text when
      0 <= i < |x|, and ArgumentOutOfRange otherwise. */
  method IndexAfterAppend(capacity: nat, x: string, i: int) returns (r: Result<char>)
    ensures 0 <= i < |x| ==> r == Ok(x[i])
    ensures !(0 <= i < |x|) ==> r == Err(ArgumentOutOfRange)
  {
    var pool := new ArrayPool();
    var buffer := new char[capacity];
    var sb := new ValueStringBuilder(buffer, pool);
    var o := sb.AppendString(Some(x));
    r := sb.Get(i);
    assert pool.outstanding - sb.rentedHere == {};
    sb.Dispose();
    assert pool.outstanding == {};
  }

  method IndexerTest() returns (c0: Result<char>, c1: Result<char>, c2: Result<char>, c3: Result<char>)
    ensures c0 == Ok('T') && c1 == Ok('e') && c2 == Ok('s') && c3 == Ok('t')
  {
    c0 := IndexAfterAppend(256, "Test", 0);
    c1 := IndexAfterAppend(256, "Test", 1);
    c2 := IndexAfterAppend(256, "Test", 2);
    c3 := IndexAfterAppend(256, "Test", 3);
  }

  method IndexerOutOfRangeTest() returns (r: Result<char>)
    ensures r == Err(ArgumentOutOfRange)
  {
    r := IndexAfterAppend(256, "Test", 4);
  }

  /** After Dispose, Append, ToString and Clear all fail with ObjectDisposed;
      a second Dispose does not fail, and the pool has everything back. */
  method UseAfterDispose(capacity: nat, x: string, y: string) returns (r1: Outcome, s: Result<string>, r2: Outcome)
    ensures r1 == Fail(ObjectDisposed) && s == Err(ObjectDisposed) && r2 == Fail(ObjectDisposed)
  {
    var pool := new ArrayPool();
    var buffer := new char[capacity];
    var sb := new ValueStringBuilder(buffer, pool);
    var r := sb.AppendString(Some(x));
    assert pool.outstanding - sb.rentedHere == {};
    sb.Dispose();
    assert pool.outstanding == {};
    r1 := sb.AppendString(Some(y));
    s := sb.ToString();
    r2 := sb.Clear();
    sb.Dispose();
    assert pool.outstanding == {};
  }

  method DisposeTest() returns (r1: Outcome, s: Result<string>, r2: Outcome)
    ensures r1 == Fail(ObjectDisposed) && s == Err(ObjectDisposed) && r2 == Fail(ObjectDisposed)
  {
    r1, s, r2 := UseAfterDispose(256, "Test", "Test");
  }

  /** Two appends that may overflow the caller's buffer: ToString is the
      concatenation, the final capacity holds it, and nothing grows while the
      text fits. At most one rented array is held at any time, and it goes
      back on Dispose. */
  method GrowAcrossAppends(capacity: nat, x: string, y: string) returns (s: Result<string>, cap: nat)
    ensures s == Ok(x + y)
    ensures cap >= |x| + |y|
    ensures |x| + |y| <= capacity ==> cap == capacity
  {
    var pool := new ArrayPool();
    var buffer := new char[capacity];
    var sb := new ValueStringBuilder(buffer, pool);
    var r := sb.AppendString(Some(x));
    assert sb.AsSpan() == x;
    assert pool.outstanding - sb.rentedHere == {};
    assert pool.outstanding == sb.rentedHere && |pool.outstanding| <= 1;
    r := sb.AppendString(Some(y));
    assert sb.AsSpan() == x + y;
    assert pool.outstanding - sb.rentedHere == {};
    assert pool.outstanding == sb.rentedHere && |pool.outstanding| <= 1;
    s := sb.ToString();
    cap := sb.Capacity();
    sb.Dispose();
    assert pool.outstanding == {};
  }

  method GrowTest() returns (s: Result<string>, cap: nat)
    ensures s == Ok("TestLonger") && cap >= 10
  {
    s, cap := GrowAcrossAppends(4, "Test", "Longer");
    assert "Test" + "Longer" == "TestLonger";
  }

  /** ToString is a copy: it can be repeated, and a later append does not
      change a string it returned. */
  method ToStringIsACopy(capacity: nat, x: string, y: string) returns (s: Result<string>, t: Result<string>, u: Result<string>)
    ensures s == Ok(x) && t == s && u == Ok(x + y)
  {
    var pool := new ArrayPool();
    var buffer := new char[capacity];
    var sb := new ValueStringBuilder(buffer, pool);
    var r := sb.AppendString(Some(x));
    assert sb.AsSpan() == x;
    s := sb.ToString();
    t := sb.ToString();
    r := sb.AppendString(Some(y));
    assert sb.AsSpan() == x + y;
    u := sb.ToString();
    assert pool.outstanding - sb.rentedHere == {};
    sb.Dispose();
    assert pool.outstanding == {};
  }

  /** The growth test as one history replayed on a builder over a 4-slot buffer. */
  method ReplayGrowTest() returns (replies: seq<History.Reply>)
    ensures replies == [History.Done, History.Done, History.Text("TestLonger"), History.Done,
                        History.Failed(ObjectDisposed)]
  {
    var pool := new ArrayPool();
    var buffer := new char[4];
    var sb := new ValueStringBuilder(buffer, pool);
    var calls := [History.AppendString(Some("Test")), History.AppendString(Some("Longer")),
                  History.ToString, History.Dispose, History.ToString];
    replies := Replay(sb, calls);
    History.GrowTestHistory();
    assert sb.View().disposed && sb.rentedHere == {} && pool.outstanding - sb.rentedHere == {};
    assert pool.outstanding == {};
  }
}
