/**
  The two-wire bus as the drivers see it.

  The platform bus driver is replaced by a script: an immutable list of
  replies, one per transfer, handed out in the order the driver issues its
  transfers. A driver run records what it did as a trace of events, so the
  order of its transfers and sleeps, and where it stops, can be stated
  exactly.
 */
module Bus {

  type Byte = bv8

  /** One thing a driver does, in the order it does it. */
  datatype Event =
    | Write(addr: nat, bytes: seq<Byte>)  // a write transfer of `bytes` to `addr`
    | Read(addr: nat, len: nat)           // a read transfer of `len` bytes from `addr`
    | Sleep(ms: nat)                      // a nominal pause; no clock is modelled

  /** The bus's answer to one transfer: its return code (0 is success, any
      other value is the error the platform driver reports) and, for a read,
      the bytes the device delivered. */
  datatype Reply = Reply(ret: int, data: seq<Byte>)

  /** How a driver run against a script ends: the driver returned `value`,
      or the script ran out while the driver still wanted the bus. The model
      says nothing about what happens past the end of a script. */
  datatype Run<T> =
    | Returned(value: T, trace: seq<Event>)
    | OutOfScript(trace: seq<Event>)

  predicate Ok(r: Reply) {
    r.ret == 0
  }

  /** The buffer a successful read of `n` bytes leaves behind: the bytes the
      device delivered, and zero where a short reply delivered none. */
  function Fill(data: seq<Byte>, n: nat): (b: seq<Byte>)
    ensures |b| == n
    ensures forall i :: 0 <= i < n && i < |data| ==> b[i] == data[i]
    ensures forall i :: |data| <= i < n ==> b[i] == 0
  {
    if |data| >= n then data[..n] else data + seq(n - |data|, _ => 0)
  }

  /** The first byte a successful one-byte read leaves in the buffer. */
  function FirstByte(r: Reply): (b: Byte)
    ensures |r.data| > 0 ==> b == r.data[0]
    ensures |r.data| == 0 ==> b == 0
  {
    Fill(r.data, 1)[0]
  }

  /** The same run with `t` happening before it. */
  function After<T>(t: seq<Event>, r: Run<T>): (r': Run<T>)
    ensures r'.trace == t + r.trace
    ensures r'.Returned? <==> r.Returned?
    ensures r'.Returned? ==> r'.value == r.value
  {
    r.(trace := t + r.trace)
  }

  /** How many sleeps of exactly `ms` milliseconds a trace holds. */
  function CountSleeps(t: seq<Event>, ms: nat): nat
  {
    if |t| == 0 then 0
    else (if t[0] == Sleep(ms) then 1 else 0) + CountSleeps(t[1..], ms)
  }

  /** How many bus transfers (writes and reads) a trace holds. */
  function Transfers(t: seq<Event>): nat
  {
    if |t| == 0 then 0
    else (if t[0].Sleep? then 0 else 1) + Transfers(t[1..])
  }

  lemma {:induction false} CountsAppend(a: seq<Event>, b: seq<Event>, ms: nat)
    ensures CountSleeps(a + b, ms) == CountSleeps(a, ms) + CountSleeps(b, ms)
    ensures Transfers(a + b) == Transfers(a) + Transfers(b)
    decreases |a|
  {
    if |a| == 0 {
      assert a + b == b;
    } else {
      assert (a + b)[1..] == a[1..] + b;
      CountsAppend(a[1..], b, ms);
    }
  }

  lemma CountsOne(e: Event, ms: nat)
    ensures Transfers([e]) == (if e.Sleep? then 0 else 1)
    ensures CountSleeps([e], ms) == (if e == Sleep(ms) then 1 else 0)
  {
    assert [e][1..] == [];
  }

  /** A run used its script one reply per transfer, in order: it issued at
      least one transfer, every transfer but the last got a successful
      reply, and the last transfer got a reply exactly when the run returned. */
  predicate ReplyPerTransfer<T>(script: seq<Reply>, r: Run<T>) {
    var n := Transfers(r.trace);
    && 1 <= n <= |script| + 1
    && (r.Returned? <==> n <= |script|)
    && forall j :: 0 <= j < n - 1 ==> Ok(script[j])
  }
}
