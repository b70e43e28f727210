/** ValueStringBuilder: a character buffer that writes into storage the caller
    supplies and, when that overflows, moves to arrays rented from a pool. It
    tracks the written length, hands any rented array back when it grows again
    or is disposed, and refuses appends, ToString and Clear once disposed. */
module Text {
  import opened Errors
  import opened ArrayPools
  import History

  /** The capacity Grow asks the pool for: double the current capacity, or the
      required capacity when that is larger. Growing from an empty buffer
      therefore still yields the required room. */
  function NewCapacity(capacity: nat, required: int): (r: nat)
    ensures r >= 2 * capacity && r >= required
    ensures r == 2 * capacity || r == required
  {
    if 2 * capacity >= required then 2 * capacity else required
  }

  /** The builder's reply as a History reply. */
  function OutcomeReply(r: Outcome): History.Reply {
    match r
    case Pass => History.Done
    case Fail(e) => History.Failed(e)
  }

  /** The indexer's parameter is a 32-bit signed C# int. */
  predicate IsInt32(x: int) {
    -0x8000_0000 <= x < 0x8000_0000
  }

  /** The C# cast `(uint)x` of a 32-bit int: negative values wrap to 2^32 + x. */
  function ToUInt32(x: int): (u: nat)
    requires IsInt32(x)
    ensures u < 0x1_0000_0000
    ensures x >= 0 ==> u == x
    ensures x < 0 ==> u >= 0x8000_0000
  {
    if x < 0 then x + 0x1_0000_0000 else x
  }

  /** The indexer's single unsigned comparison `(uint)index >= (uint)_pos`
      rejects exactly the indices below 0 and those at or past the length. */
  lemma UnsignedIndexCheck(index: int, length: int)
    requires IsInt32(index) && IsInt32(length) && length >= 0
    ensures ToUInt32(index) >= ToUInt32(length) <==> index < 0 || index >= length
  {
  }

  class ValueStringBuilder {
    /** The rented array that the next Grow or Dispose hands back to the pool;
        null while the caller's buffer is in use and after Dispose. */
    var arrayToReturnToPool: array?<char>
    /** The storage written into: the caller's buffer, later a rented array. */
    var chars: array<char>
    /** The number of characters written, from slot 0. */
    var pos: nat
    var disposed: bool
    /** The shared pool the builder rents from. */
    const pool: ArrayPool
    /** The buffer the caller supplied; the builder never gives it to the pool. */
    ghost const initialBuffer: array<char>
    /** The arrays this builder has rented and not yet handed back. */
    ghost var rentedHere: set<array<char>>

    /** The builder's invariant. It holds at construction and after every
        operation, and it implies that at most one rented array is held, that
        the caller's buffer is never among them, and that nothing is held once
        disposed. */
    ghost predicate Valid()
      reads this, pool
      ensures Valid() ==> pos <= chars.Length
      ensures Valid() ==> rentedHere <= pool.outstanding
      ensures Valid() ==> |rentedHere| <= 1 && initialBuffer !in rentedHere
      ensures Valid() && disposed ==> rentedHere == {}
    {
      pos <= chars.Length &&
      rentedHere == (if arrayToReturnToPool == null then {} else {arrayToReturnToPool}) &&
      rentedHere <= pool.outstanding &&
      (arrayToReturnToPool != null ==> arrayToReturnToPool == chars && chars != initialBuffer && !disposed) &&
      (arrayToReturnToPool == null && !disposed ==> chars == initialBuffer)
    }

    /** What a caller observes: the written characters and the disposed flag. */
    ghost function View(): History.View
      reads this, chars, pool
      requires Valid()
    {
      History.View(AsSpan(), disposed)
    }

    constructor (initialBuffer: array<char>, pool: ArrayPool)
      ensures Valid() && !disposed
      ensures this.initialBuffer == initialBuffer && chars == initialBuffer && this.pool == pool
      ensures Length() == 0 && Capacity() == initialBuffer.Length
      ensures View() == History.Initial
      ensures arrayToReturnToPool == null && rentedHere == {}
    {
      arrayToReturnToPool := null;
      chars := initialBuffer;
      pos := 0;
      disposed := false;
      this.pool := pool;
      this.initialBuffer := initialBuffer;
      rentedHere := {};
    }

    /** The written length. Readable after Dispose too: it checks nothing. */
    function Length(): (n: nat)
      reads this, pool
      requires Valid()
      ensures n <= chars.Length
    {
      pos
    }

    /** The size of the current storage, which always holds the written
        characters. Readable after Dispose too: it checks nothing. */
    function Capacity(): (c: nat)
      reads this, pool
      ensures Valid() ==> Length() <= c
    {
      chars.Length
    }

    /** The written characters, slots [0, Length) of the storage. It does not
        check the disposed flag: after Dispose it still reads the storage, which
        may be an array already handed back to the pool. */
    function AsSpan(): (span: seq<char>)
      reads this, chars, pool
      requires Valid()
      ensures |span| == Length()
    {
      chars[..pos]
    }

    /** Fails with ObjectDisposed exactly when the builder has been disposed. */
    function EnsureNotDisposed(): (r: Outcome)
      reads this
      ensures r.Fail? <==> disposed
      ensures r.Fail? ==> r.error == ObjectDisposed
    {
      if disposed then Fail(ObjectDisposed) else Pass
    }

    /** The indexer: the character at `index` when 0 <= index < Length, and
        ArgumentOutOfRange otherwise. It does not check the disposed flag. */
    method Get(index: int) returns (r: Result<char>)
      requires Valid()
      ensures 0 <= index < Length() ==> r == Ok(AsSpan()[index])
      ensures !(0 <= index < Length()) ==> r == Err(ArgumentOutOfRange)
      ensures History.Answer(View(), History.Index(index))
           == (if r.Ok? then History.Char(r.value) else History.Failed(r.error))
    {
      if index < 0 || index >= pos {
        return Err(ArgumentOutOfRange);
      }
      return Ok(chars[index]);
    }

    /** An independent copy of the written characters, or ObjectDisposed. The
        builder is left as it was, so it can be called again and appended to. */
    method ToString() returns (r: Result<string>)
      requires Valid()
      ensures disposed ==> r == Err(ObjectDisposed)
      ensures !disposed ==> r == Ok(AsSpan())
      ensures History.Answer(View(), History.ToString)
           == (if r.Ok? then History.Text(r.value) else History.Failed(r.error))
    {
      var check := EnsureNotDisposed();
      if check.Fail? {
        return Err(check.error);
      }
      return Ok(chars[..pos]);
    }

    /** Appends one character, growing first when the storage is full. */
    method AppendChar(c: char) returns (r: Outcome)
      requires Valid()
      modifies this, chars, pool
      ensures Valid()
      ensures r == old(EnsureNotDisposed())
      ensures View() == History.Step(old(View()), History.AppendChar(c))
      ensures old(disposed) ==> unchanged(this) && unchanged(old(chars))
      ensures !old(disposed) ==> (chars != old(chars) <==> old(pos) >= old(chars.Length))
      ensures chars != old(chars) ==> fresh(chars) && Grown(old(chars), old(pos) + 1) && unchanged(old(chars))
      ensures chars == old(chars) ==> forall i :: 0 <= i < chars.Length && i != old(pos) ==> chars[i] == old(chars[i])
      ensures Capacity() >= old(Capacity())
      ensures pool.outstanding - rentedHere == old(pool.outstanding - rentedHere)
    {
      r := EnsureNotDisposed();
      if r.Fail? {
        return;
      }
      EnsureRoom(pos + 1);
      ghost var before := chars[..pos];
      chars[pos] := c;
      assert chars[..pos + 1] == before + [c];
      pos := pos + 1;
    }

    /** Appends `s`; a null or empty string changes nothing. */
    method AppendString(s: Option<string>) returns (r: Outcome)
      requires Valid()
      modifies this, chars, pool
      ensures Valid()
      ensures r == old(EnsureNotDisposed())
      ensures View() == History.Step(old(View()), History.AppendString(s))
      ensures old(disposed) || s.None? || s.value == [] ==> unchanged(this) && unchanged(old(chars))
      ensures !old(disposed) && s.Some? ==> (chars != old(chars) <==> old(pos) + |s.value| > old(chars.Length))
      ensures chars != old(chars) ==> fresh(chars) && s.Some? && Grown(old(chars), old(pos) + |s.value|) && unchanged(old(chars))
      ensures chars == old(chars) ==> forall i :: 0 <= i < chars.Length && !(old(pos) <= i < pos) ==> chars[i] == old(chars[i])
      ensures Capacity() >= old(Capacity())
      ensures pool.outstanding - rentedHere == old(pool.outstanding - rentedHere)
    {
      r := EnsureNotDisposed();
      if r.Fail? || s.None? || s.value == [] {
        return;
      }
      EnsureRoom(pos + |s.value|);
      ghost var before := chars[..pos];
      CopyAtEnd(s.value);
      pos := pos + |s.value|;
      assert AsSpan() == before + s.value;
    }

    /** Appends the characters of `span`; an empty span changes nothing. */
    method AppendSpan(span: seq<char>) returns (r: Outcome)
      requires Valid()
      modifies this, chars, pool
      ensures Valid()
      ensures r == old(EnsureNotDisposed())
      ensures View() == History.Step(old(View()), History.AppendSpan(span))
      ensures old(disposed) || span == [] ==> unchanged(this) && unchanged(old(chars))
      ensures !old(disposed) ==> (chars != old(chars) <==> span != [] && old(pos) + |span| > old(chars.Length))
      ensures chars != old(chars) ==> fresh(chars) && Grown(old(chars), old(pos) + |span|) && unchanged(old(chars))
      ensures chars == old(chars) ==> forall i :: 0 <= i < chars.Length && !(old(pos) <= i < pos) ==> chars[i] == old(chars[i])
      ensures Capacity() >= old(Capacity())
      ensures pool.outstanding - rentedHere == old(pool.outstanding - rentedHere)
    {
      r := EnsureNotDisposed();
      if r.Fail? || |span| == 0 {
        return;
      }
      EnsureRoom(pos + |span|);
      ghost var before := chars[..pos];
      CopyAtEnd(span);
      pos := pos + |span|;
      assert AsSpan() == before + span;
    }

    /** Copies `span` into the slots from Length on (`span.CopyTo(_chars.Slice(_pos))`),
        leaving every other slot and the length as they were. */
    method CopyAtEnd(span: seq<char>)
      requires pos + |span| <= chars.Length
      modifies chars
      ensures chars[..pos + |span|] == old(chars[..pos]) + span
      ensures forall i :: 0 <= i < chars.Length && !(pos <= i < pos + |span|) ==> chars[i] == old(chars[i])
    {
      forall i | 0 <= i < |span| {
        chars[pos + i] := span[i];
      }
      assert forall i :: 0 <= i < pos + |span| ==> chars[..pos + |span|][i] == (old(chars[..pos]) + span)[i];
    }

    /** Empties the builder: Length becomes 0 and the slots written so far are
        zeroed. Capacity and the slots beyond the old Length are unchanged. */
    method Clear() returns (r: Outcome)
      requires Valid()
      modifies this`pos, chars
      ensures Valid()
      ensures r == old(EnsureNotDisposed())
      ensures View() == History.Step(old(View()), History.Clear)
      ensures old(disposed) ==> unchanged(this) && unchanged(chars)
      ensures !old(disposed) ==> pos == 0 && forall i :: 0 <= i < old(pos) ==> chars[i] == '\0'
      ensures forall i :: old(pos) <= i < chars.Length ==> chars[i] == old(chars[i])
    {
      r := EnsureNotDisposed();
      if r.Fail? {
        return;
      }
      forall i | 0 <= i < pos {
        chars[i] := '\0';
      }
      pos := 0;
    }

    /** Hands the rented array, if any, back to the pool and marks the builder
        disposed. A second call does nothing. The storage reference and the
        length are left as they were. */
    method Dispose()
      requires Valid()
      modifies this, pool
      ensures Valid() && disposed
      ensures View() == History.Step(old(View()), History.Dispose)
      ensures chars == old(chars) && pos == old(pos)
      ensures arrayToReturnToPool == null && rentedHere == {}
      ensures pool.outstanding == old(pool.outstanding) - old(rentedHere)
      ensures old(disposed) ==> unchanged(this) && unchanged(pool)
    {
      if disposed {
        return;
      }
      if arrayToReturnToPool != null {
        pool.Return(arrayToReturnToPool);
        arrayToReturnToPool := null;
        rentedHere := {};
      }
      disposed := true;
    }

    /** Grows exactly when `required` exceeds the capacity, the check each
        append makes before writing; otherwise nothing changes. */
    method EnsureRoom(required: nat)
      requires Valid() && !disposed
      modifies this, pool
      ensures Valid() && !disposed && pos == old(pos) && required <= chars.Length
      ensures chars[..pos] == old(chars[..pos])
      ensures chars != old(chars) <==> required > old(chars.Length)
      ensures chars != old(chars) ==> fresh(chars) && Grown(old(chars), required) && unchanged(old(chars))
      ensures chars == old(chars) ==> unchanged(this) && unchanged(pool)
      ensures chars.Length >= old(chars.Length)
      ensures pool.outstanding - rentedHere == old(pool.outstanding - rentedHere)
    {
      if required > chars.Length {
        Grow(required);
      }
    }

    /** What a growth leaves behind: new storage, rented from the pool and
        held as the only rented array, of at least NewCapacity slots. */
    ghost predicate Grown(oldChars: array<char>, required: int)
      reads this
    {
      chars != oldChars && chars.Length >= NewCapacity(oldChars.Length, required) &&
      arrayToReturnToPool == chars && rentedHere == {chars}
    }

    /** Rents storage of at least NewCapacity(Capacity, requiredCapacity) slots,
        copies the written prefix into it, hands back the previously rented
        array (never the caller's buffer) and adopts the new one. */
    method Grow(requiredCapacity: int)
      requires Valid() && !disposed
      modifies this, pool
      ensures Valid() && !disposed
      ensures fresh(chars) && Grown(old(chars), requiredCapacity)
      ensures pos == old(pos) && chars[..pos] == old(chars[..pos])
      ensures pool.outstanding == old(pool.outstanding) - old(rentedHere) + {chars}
    {
      var newCapacity := NewCapacity(chars.Length, requiredCapacity);
      var newArray := pool.Rent(newCapacity);
      forall i | 0 <= i < pos {
        newArray[i] := chars[i];
      }
      if arrayToReturnToPool != null {
        pool.Return(arrayToReturnToPool);
      }
      chars := newArray;
      arrayToReturnToPool := newArray;
      rentedHere := {newArray};
    }
  }

  /** Performs one call on `b`: its view and reply are those History gives. */
  method Perform(b: ValueStringBuilder, call: History.Call) returns (reply: History.Reply)
    requires b.Valid()
    modifies b, b.chars, b.pool
    ensures b.Valid()
    ensures b.View() == History.Step(old(b.View()), call)
    ensures reply == History.Answer(old(b.View()), call)
    ensures b.chars == old(b.chars) || fresh(b.chars)
    ensures b.Capacity() >= old(b.Capacity())
    ensures b.pool.outstanding - b.rentedHere == old(b.pool.outstanding - b.rentedHere)
  {
    match call {
      case AppendChar(c) =>
        var r := b.AppendChar(c);
        reply := OutcomeReply(r);
      case AppendString(t) =>
        var r := b.AppendString(t);
        reply := OutcomeReply(r);
      case AppendSpan(t) =>
        var r := b.AppendSpan(t);
        reply := OutcomeReply(r);
      case Clear =>
        var r := b.Clear();
        reply := OutcomeReply(r);
      case ToString =>
        var r := b.ToString();
        reply := if r.Ok? then History.Text(r.value) else History.Failed(r.error);
      case Index(k) =>
        var r := b.Get(k);
        reply := if r.Ok? then History.Char(r.value) else History.Failed(r.error);
      case Length =>
        reply := History.Count(b.Length());
      case Dispose =>
        b.Dispose();
        reply := History.Done;
    }
  }

  /** A caller that drives `b` through `calls` in order, as the calls inside
      a `using` block do before its Dispose. The builder follows History call by
      call: its view ends as History.Run predicts and each reply is the one
      History.Replies predicts, whatever growth happened on the way. Capacity
      never decreases, and the pool changes only by the builder's own lease. */
  method Replay(b: ValueStringBuilder, calls: seq<History.Call>) returns (replies: seq<History.Reply>)
    requires b.Valid()
    modifies b, b.chars, b.pool
    ensures b.Valid()
    ensures b.View() == History.Run(old(b.View()), calls)
    ensures replies == History.Replies(old(b.View()), calls)
    ensures b.Capacity() >= old(b.Capacity())
    ensures b.pool.outstanding - b.rentedHere == old(b.pool.outstanding - b.rentedHere)
  {
    ghost var start := b.View();
    replies := [];
    var i := 0;
    while i < |calls|
      invariant 0 <= i <= |calls|
      invariant b.Valid()
      invariant b.chars == old(b.chars) || fresh(b.chars)
      invariant b.View() == History.Run(start, calls[..i])
      invariant replies == History.Replies(start, calls[..i])
      invariant b.Capacity() >= old(b.Capacity())
      invariant b.pool.outstanding - b.rentedHere == old(b.pool.outstanding - b.rentedHere)
    {
      var reply := Perform(b, calls[i]);
      History.RunConcat(start, calls[..i], [calls[i]]);
      assert calls[..i + 1] == calls[..i] + [calls[i]];
      replies := replies + [reply];
      i := i + 1;
    }
    assert calls[..i] == calls;
  }
}
