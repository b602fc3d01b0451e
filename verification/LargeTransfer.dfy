/** The sending side of tcp-large-transfer.cc: a buffer of 1040 bytes written
    over and over, as far as the socket accepts it at each call. */
module LargeTransfer {

  const TOTAL_TX_BYTES: nat := 2000000
  const WRITE_SIZE: nat := 1040

  // What the socket answers: the transmit space it reports in each turn, and
  // the count it accepts of what it is offered (negative to refuse).
  datatype Socket = Socket(available: nat -> nat, accepts: (nat, nat) -> int)

  // A socket that accepts something accepts at least one byte, and no more
  // than it was offered.
  ghost predicate Honest(socket: Socket) {
    forall turn: nat, offered: nat | offered > 0 ::
      socket.accepts(turn, offered) < 0 || 1 <= socket.accepts(turn, offered) <= offered
  }

  // One call of Send: the bytes offered and what it returned.
  datatype Call = Call(offered: seq<int>, result: int)

  function TakenOf(c: Call): seq<int> {
    if 0 <= c.result <= |c.offered| then c.offered[..c.result] else []
  }

  // What the socket took over several calls.
  function TakenBytes(calls: seq<Call>): seq<int> {
    if calls == [] then [] else TakenBytes(calls[..|calls| - 1]) + TakenOf(calls[|calls| - 1])
  }

  // The stream is at byte `at`: the call offers the next bytes, as many as the
  // reported space, the end of the buffer and the total allow, and gets the
  // socket's answer.
  ghost predicate AnswerTo(socket: Socket, turn: nat, at: nat, c: Call) {
    var n := |c.offered|;
    && IsStream(c.offered, at)
    && 1 <= n <= socket.available(turn) && at + n <= TOTAL_TX_BYTES && at % 1040 + n <= 1040
    && (n == socket.available(turn) || at + n == TOTAL_TX_BYTES || at % 1040 + n == 1040)
    && c.result == socket.accepts(turn, n)
  }

  ghost predicate AnswerAt(socket: Socket, start: nat, calls: seq<Call>, t: nat)
    requires t < |calls|
  {
    AnswerTo(socket, t, start + |TakenBytes(calls[..t])|, calls[t])
  }

  // The calls are made from byte `start` on; after a refusal there is no further
  // call.
  ghost predicate Answered(socket: Socket, start: nat, calls: seq<Call>) {
    && (forall t | 0 <= t < |calls| :: AnswerAt(socket, start, calls, t))
    && (forall t | 0 <= t < |calls| - 1 :: calls[t].result >= 0)
  }

  // Why the callback returns: everything is sent, or there is no space, or the
  // socket refused; the connection is closed unless it refused.
  ghost predicate Ended(socket: Socket, calls: seq<Call>, sent: nat, closed: bool) {
    if calls != [] && calls[|calls| - 1].result < 0 then !closed
    else closed && (sent == TOTAL_TX_BYTES || socket.available(|calls|) == 0)
  }

  lemma OneMoreCall(socket: Socket, start: nat, calls: seq<Call>, c: Call)
    requires Answered(socket, start, calls) && AnswerTo(socket, |calls|, start + |TakenBytes(calls)|, c)
    requires calls != [] ==> calls[|calls| - 1].result >= 0
    ensures Answered(socket, start, calls + [c])
  {
    forall t | 0 <= t < |calls + [c]|
      ensures AnswerAt(socket, start, calls + [c], t)
    {
      if t < |calls| {
        assert AnswerAt(socket, start, calls, t);
        AnswerStays(socket, start, calls, c, t);
      } else {
        AnswerNew(socket, start, calls, c);
      }
    }
  }

  lemma AnswerNew(socket: Socket, start: nat, calls: seq<Call>, c: Call)
    requires AnswerTo(socket, |calls|, start + |TakenBytes(calls)|, c)
    ensures AnswerAt(socket, start, calls + [c], |calls|)
  {
    var longer, t := calls + [c], |calls|;
    var at := start + |TakenBytes(calls)|;
    assert longer[..t] == calls && longer[t] == c;
    assert AnswerTo(socket, t, at, longer[t]);
    assert start + |TakenBytes(longer[..t])| == at;
  }

  lemma AnswerStays(socket: Socket, start: nat, calls: seq<Call>, c: Call, t: nat)
    requires t < |calls| && AnswerAt(socket, start, calls, t)
    ensures AnswerAt(socket, start, calls + [c], t)
  {
    assert (calls + [c])[..t] == calls[..t];
  }

  lemma OneMoreTaken(before: seq<int>, calls: seq<Call>, c: Call)
    ensures before + TakenBytes(calls + [c]) == before + TakenBytes(calls) + TakenOf(c)
  {
    assert (calls + [c])[..|calls|] == calls;
    assert before + (TakenBytes(calls) + TakenOf(c)) == before + TakenBytes(calls) + TakenOf(c);
  }

  function Min(a: nat, b: nat): nat {
    if b < a then b else a
  }

  // The k-th byte of the stream.
  function StreamByte(k: nat): nat {
    97 + k % 26
  }

  // The bytes are those of the stream from the k-th on.
  ghost predicate IsStream(s: seq<int>, k: nat) {
    forall i | 0 <= i < |s| :: s[i] == StreamByte(k + i)
  }

  lemma StreamJoin(s: seq<int>, t: seq<int>)
    requires IsStream(s, 0) && IsStream(t, |s|)
    ensures IsStream(s + t, 0)
  {
  }

  lemma StreamTake(s: seq<int>, k: nat, n: nat)
    requires IsStream(s, k) && n <= |s|
    ensures IsStream(s[..n], k)
  {
  }

  // 1040 is a multiple of 26: there is no seam where the buffer starts over.
  lemma NoSplice(k: nat, i: nat)
    ensures StreamByte(k % 1040 + i) == StreamByte(k + i)
  {
  }

  lemma BufferWindow(buffer: seq<int>, k: nat, n: nat)
    requires IsStream(buffer, 0) && |buffer| == 1040 && k % 1040 + n <= 1040
    ensures IsStream(buffer[k % 1040..k % 1040 + n], k)
  {
    var r := k % 1040;
    var window := buffer[r..r + n];
    forall i | 0 <= i < n
      ensures window[i] == StreamByte(k + i)
    {
      NoSplice(k, i);
      assert window[i] == buffer[r + i] == StreamByte(0 + (r + i));
    }
  }

  class Sender {
    var currentTxBytes: nat
    const data: array<int>
    ghost var accepted: seq<int>   // every byte the socket has taken, in order

    ghost predicate Valid()
      reads this, data
    {
      && data.Length == WRITE_SIZE && IsStream(data[..], 0)
      && |accepted| == currentTxBytes <= TOTAL_TX_BYTES && IsStream(accepted, 0)
    }

    // main fills the buffer before anything is sent.
    constructor ()
      ensures Valid() && fresh(data) && accepted == []
    {
      currentTxBytes, accepted := 0, [];
      data := new int[WRITE_SIZE];
      new;
      for i := 0 to WRITE_SIZE
        invariant currentTxBytes == 0 && accepted == []
        invariant forall k | 0 <= k < i :: data[k] == StreamByte(k)
      {
        data[i] := 97 + i % 26;
      }
    }

    // The bytes offered in one turn lie inside the buffer and continue the
    // stream, as many as space, buffer and stream allow.
    method Offer(available: nat) returns (dataOffset: nat, toWrite: nat)
      requires Valid() && currentTxBytes < TOTAL_TX_BYTES && available > 0
      ensures 1 <= toWrite <= available && dataOffset + toWrite <= data.Length
      ensures dataOffset == currentTxBytes % 1040 && currentTxBytes + toWrite <= TOTAL_TX_BYTES
      ensures toWrite == available || dataOffset + toWrite == data.Length || currentTxBytes + toWrite == TOTAL_TX_BYTES
      ensures IsStream(data[dataOffset..dataOffset + toWrite], currentTxBytes)
    {
      var left := TOTAL_TX_BYTES - currentTxBytes;
      dataOffset := currentTxBytes % WRITE_SIZE;
      toWrite := WRITE_SIZE - dataOffset;
      toWrite := Min(toWrite, left);
      toWrite := Min(toWrite, available);
      BufferWindow(data[..], currentTxBytes, toWrite);
      assert data[dataOffset..dataOffset + toWrite] == data[..][dataOffset..dataOffset + toWrite];
    }

    // What the calls so far came to, and none of them was refused.
    ghost predicate Sending(socket: Socket, before: seq<int>, calls: seq<Call>)
      reads this
    {
      && Answered(socket, |before|, calls) && accepted == before + TakenBytes(calls)
      && (calls != [] ==> calls[|calls| - 1].result >= 0)
    }

    // One turn: the next bytes of the stream are offered, and those the socket
    // accepts are counted.
    method SendSome(socket: Socket, turn: nat, ghost before: seq<int>, ghost callsBefore: seq<Call>)
      returns (amountSent: int, ghost calls: seq<Call>)
      requires Valid() && Honest(socket) && currentTxBytes < TOTAL_TX_BYTES && socket.available(turn) > 0
      requires Sending(socket, before, callsBefore) && turn == |callsBefore|
      modifies this
      ensures Valid()
      ensures |calls| == turn + 1 && calls[turn].result == amountSent
      ensures Answered(socket, |before|, calls) && accepted == before + TakenBytes(calls)
      ensures accepted == old(accepted) + TakenOf(calls[turn])
      ensures amountSent >= 0 ==> currentTxBytes > old(currentTxBytes)
    {
      var dataOffset, toWrite := Offer(socket.available(turn));
      amountSent := socket.accepts(turn, toWrite);
      ghost var call := Call(data[dataOffset..dataOffset + toWrite], amountSent);
      calls := callsBefore + [call];
      OneMoreCall(socket, |before|, callsBefore, call);
      OneMoreTaken(before, callsBefore, call);
      if amountSent >= 0 {
        StreamTake(call.offered, currentTxBytes, amountSent);
        StreamJoin(accepted, TakenOf(call));
        accepted := accepted + TakenOf(call);
        currentTxBytes := currentTxBytes + amountSent;
      }
    }

    // One callback.  Whatever the socket reports and accepts, the stream it
    // has taken grows by just what it answered, stays the alphabet over and
    // over, and never exceeds the total.
    method WriteUntilBufferFull(socket: Socket) returns (closed: bool, ghost calls: seq<Call>)
      requires Valid() && Honest(socket)
      modifies this
      ensures Valid()
      ensures Answered(socket, old(currentTxBytes), calls) && accepted == old(accepted) + TakenBytes(calls)
      ensures Ended(socket, calls, currentTxBytes, closed)
    {
      var turn: nat := 0;
      calls := [];
      while currentTxBytes < TOTAL_TX_BYTES && socket.available(turn) > 0
        invariant Valid() && turn == |calls| && Sending(socket, old(accepted), calls)
        decreases TOTAL_TX_BYTES - currentTxBytes
      {
        var amountSent;
        amountSent, calls := SendSome(socket, turn, old(accepted), calls);
        if amountSent < 0 {
          return false, calls;
        }
        turn := turn + 1;
      }
      return true, calls;
    }
  }
}
