/** The copy loops of drv_eth.c between chains of packet buffers and the buffers of DMA descriptors. */
module Ethernet {
  import opened Arith

  type Byte = bv8

  /** ETH_TX_BUF_SIZE and ETH_RX_BUF_SIZE: ETH_MAX_PACKET_SIZE */
  const B: nat := 1524
  /** ETH_TXBUFNB */
  const TX_BUFFERS: nat := 4

  /** The descriptor `k` steps behind descriptor `t` on a ring of `n`. */
  function Ring(t: nat, k: nat, n: nat): (d: nat)
    requires n > 0
    ensures d < n
  {
    (t + k) % n
  }

  /** The payloads of a chain, one behind the other. */
  function Payload(chain: seq<seq<Byte>>): seq<Byte> {
    if chain == [] then [] else Payload(chain[..|chain| - 1]) + chain[|chain| - 1]
  }

  function Sum(lens: seq<nat>): nat {
    if lens == [] then 0 else Sum(lens[..|lens| - 1]) + lens[|lens| - 1]
  }

  predicate Buffers(rows: seq<seq<Byte>>) {
    |rows| > 0 && forall d :: 0 <= d < |rows| ==> |rows[d]| == B
  }

  /** Byte `j` of a frame that begins at descriptor `t`. */
  function ByteAt(rows: seq<seq<Byte>>, t: nat, j: nat): Byte
    requires Buffers(rows)
  {
    rows[Ring(t, j / B, |rows|)][j % B]
  }

  /** What the hardware sees: the first `len` bytes of the buffers from descriptor `t` on, in ring order. */
  function Frame(rows: seq<seq<Byte>>, t: nat, len: nat): (f: seq<Byte>)
    requires Buffers(rows)
    ensures |f| == len && forall j :: 0 <= j < len ==> f[j] == ByteAt(rows, t, j)
  {
    seq(len, j requires 0 <= j => ByteAt(rows, t, j))
  }

  /** How many descriptors a frame takes. */
  function Need(len: nat): nat {
    if len == 0 then 1 else (len + B - 1) / B
  }

  /** memcpy into a buffer */
  function Written(row: seq<Byte>, off: nat, data: seq<Byte>): (r: seq<Byte>)
    requires off + |data| <= |row|
    ensures |r| == |row|
  {
    row[..off] + data + row[off + |data|..]
  }

  lemma RingApart(t: nat, i: nat, k: nat, n: nat)
    requires i < k < i + n
    ensures Ring(t, i, n) != Ring(t, k, n)
  {
    if Ring(t, i, n) == Ring(t, k, n) {
      var a, b := (t + i) / n, (t + k) / n;
      assert t + i == a * n + (t + i) % n && t + k == b * n + (t + k) % n;
      assert (b - a) * n == k - i by { Distribute(b, -a, n); }
      if b > a { Scale(1, b - a, n); } else { Scale(b - a, 0, n); }
    }
  }

  function Put(rows: seq<seq<Byte>>, d: nat, o: nat, v: Byte): (r: seq<seq<Byte>>)
    requires Buffers(rows) && d < |rows| && o < B
    ensures Buffers(r) && |r| == |rows|
  {
    rows[d := rows[d][o := v]]
  }

  /** The simple form of the copy: byte `j` goes to place j % B of buffer j / B, counted around the ring
      from descriptor `t`, one byte after the other. */
  function Stored(rows: seq<seq<Byte>>, t: nat, data: seq<Byte>): (r: seq<seq<Byte>>)
    requires Buffers(rows)
    ensures Buffers(r) && |r| == |rows|
  {
    if data == [] then rows
    else
      var j := |data| - 1;
      Put(Stored(rows, t, data[..j]), Ring(t, j / B, |rows|), j % B, data[j])
  }

  lemma StoreByte(rows: seq<seq<Byte>>, t: nat, done: seq<Byte>, v: Byte, k: nat, o: nat)
    requires Buffers(rows) && |done| == k * B + o && o < B
    ensures Stored(rows, t, done + [v]) == Put(Stored(rows, t, done), Ring(t, k, |rows|), o, v)
  {
    hide Ring, Put;
    DivMod(|done|, B, k, o);
    assert (done + [v])[..|done|] == done;
  }

  lemma WriteByte(row: seq<Byte>, off: nat, data: seq<Byte>)
    requires off + |data| <= |row| && data != []
    ensures var n := |data| - 1;
            Written(row, off, data) == Written(row, off, data[..n])[off + n := data[n]]
  {
  }

  /** A memcpy that goes on in buffer `k` stores the next bytes of the frame. */
  lemma {:induction false} WriteAppends(rows: seq<seq<Byte>>, t: nat, done: seq<Byte>, k: nat, off: nat,
                                        data: seq<Byte>)
    requires Buffers(rows) && |done| == k * B + off && off + |data| <= B
    ensures var d, was := Ring(t, k, |rows|), Stored(rows, t, done);
            |was[d]| == B && Stored(rows, t, done + data) == was[d := Written(was[d], off, data)]
  {
    hide Ring, Stored;
    var d, was := Ring(t, k, |rows|), Stored(rows, t, done);
    if data == [] {
      assert done + data == done;
      assert Written(was[d], off, data) == was[d];
    } else {
      var n := |data| - 1;
      WriteAppends(rows, t, done, k, off, data[..n]);
      StoreByte(rows, t, done + data[..n], data[n], k, off + n);
      assert done + data[..n] + [data[n]] == done + data;
      WriteByte(was[d], off, data);
      hide Written;
    }
  }

  /** Which byte of a frame of `len` bytes is where byte `j` was stored: the last one a whole number of
      times around the ring behind it. */
  function Latest(j: nat, len: nat, n: nat): (l: nat)
    requires n > 0 && j < len
    ensures j <= l < len && (l == j <==> len <= j + n * B)
    decreases len - j
  {
    if j + n * B < len then Latest(j + n * B, len, n) else j
  }

  lemma SamePlace(t: nat, i: nat, j: nat, n: nat)
    requires j < i < j + n * B && i % B == j % B
    ensures Ring(t, i / B, n) != Ring(t, j / B, n)
  {
    assert i == i / B * B + i % B && j == j / B * B + j % B;
    RingApart(t, j / B, i / B, n);
  }

  /** Byte `j` stays until the frame has gone around the ring. */
  lemma {:induction false} ByteStays(rows: seq<seq<Byte>>, t: nat, data: seq<Byte>, j: nat)
    requires Buffers(rows) && j < |data| <= j + |rows| * B
    ensures ByteAt(Stored(rows, t, data), t, j) == data[j]
  {
    hide Ring;
    var i := |data| - 1;
    if i > j {
      ByteStays(rows, t, data[..i], j);
      if i % B == j % B { SamePlace(t, i, j, |rows|); }
    }
  }

  lemma AroundOnce(rows: seq<seq<Byte>>, t: nat, j: nat)
    requires Buffers(rows)
    ensures ByteAt(rows, t, j + |rows| * B) == ByteAt(rows, t, j)
  {
    AddMultiple(j, |rows|, B);
    AddMultiple(t + j / B, 1, |rows|);
    assert t + (j / B + |rows|) == t + j / B + 1 * |rows|;
  }

  /** What is found where byte `j` of the frame was stored. */
  lemma {:induction false} ByteIs(rows: seq<seq<Byte>>, t: nat, data: seq<Byte>, j: nat)
    requires Buffers(rows) && j < |data|
    ensures ByteAt(Stored(rows, t, data), t, j) == data[Latest(j, |data|, |rows|)]
    decreases |data| - j
  {
    if j + |rows| * B < |data| {
      ByteIs(rows, t, data, j + |rows| * B);
      AroundOnce(Stored(rows, t, data), t, j);
    } else {
      ByteStays(rows, t, data, j);
    }
  }

  /** A place where no byte of the frame belongs keeps its contents. */
  lemma {:induction false} OthersKept(rows: seq<seq<Byte>>, t: nat, data: seq<Byte>, d: nat, o: nat)
    requires Buffers(rows) && d < |rows| && o < B
    requires forall j: nat {:trigger j / B} :: j < |data| ==> Ring(t, j / B, |rows|) != d || j % B != o
    ensures Stored(rows, t, data)[d][o] == rows[d][o]
  {
    if data != [] { OthersKept(rows, t, data[..|data| - 1], d, o); }
  }

  /** The frame arrives as it was sent. */
  predicate Delivers(rows: seq<seq<Byte>>, t: nat, data: seq<Byte>)
    requires Buffers(rows)
  {
    Frame(Stored(rows, t, data), t, |data|) == data
  }

  /** Every frame of `len` bytes arrives whole, whatever the buffers held before, if and only if it does
      not need more buffers than the ring has. */
  lemma DeliversWhole(n: nat, t: nat, len: nat)
    requires n > 0
    ensures Need(len) <= n <==>
            forall rows, data: seq<Byte> :: Buffers(rows) && |rows| == n && |data| == len ==> Delivers(rows, t, data)
  {
    hide Delivers, Need;
    if Need(len) <= n {
      forall rows, data: seq<Byte> | Buffers(rows) && |rows| == n && |data| == len ensures Delivers(rows, t, data) {
        FitsDelivers(rows, t, data);
      }
    } else {
      var rows, data := OverlongLoses(n, t, len);
    }
  }

  lemma FitsDelivers(rows: seq<seq<Byte>>, t: nat, data: seq<Byte>)
    requires Buffers(rows) && Need(|data|) <= |rows|
    ensures Delivers(rows, t, data)
  {
    var f := Frame(Stored(rows, t, data), t, |data|);
    NeedFits(|data|, |rows|);
    hide Frame, Stored, ByteAt, Need;
    forall j | 0 <= j < |data| ensures f[j] == data[j] {
      ByteIs(rows, t, data, j);
    }
  }

  lemma NeedFits(len: nat, n: nat)
    requires n > 0
    ensures Need(len) <= n <==> len <= n * B
  {
  }

  /** A frame that is too long for the ring and whose first byte is lost. */
  lemma OverlongLoses(n: nat, t: nat, len: nat) returns (rows: seq<seq<Byte>>, data: seq<Byte>)
    requires n > 0 && Need(len) > n
    ensures Buffers(rows) && |rows| == n && |data| == len > 0
    ensures Frame(Stored(rows, t, data), t, len)[0] != data[0] && !Delivers(rows, t, data)
  {
    NeedFits(len, n);
    rows := seq(n, _ => seq(B, _ => 0));
    data := seq(len, j => if j == 0 then 1 else 0);
    ByteIs(rows, t, data, 0);
  }

  /** One packet of a byte more than the ring of the driver holds: all descriptors are free and its first
      byte is lost. */
  lemma FirstByteLost() returns (rows: seq<seq<Byte>>, own: seq<bool>, packet: seq<Byte>)
    ensures Buffers(rows) && |rows| == |own| == TX_BUFFERS && |packet| == TX_BUFFERS * B + 1
    ensures Available(own, 0, Need(|Payload([packet])|))
    ensures Frame(Stored(rows, 0, Payload([packet])), 0, |packet|)[0] != packet[0]
  {
    own := seq(TX_BUFFERS, _ => false);
    NeedFits(TX_BUFFERS * B + 1, TX_BUFFERS);
    hide Stored, Need, Frame;
    rows, packet := OverlongLoses(TX_BUFFERS, 0, TX_BUFFERS * B + 1);
    assert Payload([packet]) == packet by { assert [packet][..0] == []; assert Payload([]) == []; }
  }

  /** A buffer is used only when the one before it is full. */
  lemma NeedIs(len: nat, k: nat, off: nat)
    requires len == k * B + off && off <= B && (k > 0 ==> off > 0)
    ensures Need(len) == k + 1
  {
  }

  /** A frame that goes on beyond `k` full buffers needs another. */
  lemma NeedMore(len: nat, k: nat)
    requires len > k * B
    ensures Need(len) > k
  {
  }

  lemma RingNext(t: nat, k: nat, n: nat)
    requires n > 0
    ensures Ring(t, k + 1, n) == (Ring(t, k, n) + 1) % n
  {
    var q, r := (t + k) / n, (t + k) % n;
    assert t + k + 1 == (r + 1) + q * n;
    AddMultiple(r + 1, q, n);
  }

  lemma PayloadNext(chain: seq<seq<Byte>>, i: nat)
    requires i < |chain|
    ensures Payload(chain[..i + 1]) == Payload(chain[..i]) + chain[i]
  {
    assert chain[..i + 1][..i] == chain[..i];
  }

  lemma {:induction false} PayloadPrefix(chain: seq<seq<Byte>>, i: nat)
    requires i <= |chain|
    ensures Payload(chain[..i]) <= Payload(chain)
    decreases |chain| - i
  {
    if i < |chain| {
      PayloadNext(chain, i);
      PayloadPrefix(chain, i + 1);
    } else {
      assert chain[..i] == chain;
    }
  }

  lemma SliceNext(done: seq<Byte>, data: seq<Byte>, at: nat, n: nat)
    requires at + n <= |data|
    ensures done + data[..at] + data[at..at + n] == done + data[..at + n]
  {
  }

  /** No descriptor among the first `n` from `t` on belongs to the hardware. */
  predicate Available(own: seq<bool>, t: nat, n: nat)
    requires |own| > 0
  {
    forall k :: 0 <= k < n ==> !own[Ring(t, k, |own|)]
  }

  class Sender {
    const bufs: array<seq<Byte>>    // the buffers of the transmit descriptors
    const own: array<bool>          // ETH_DMATXDESC_OWN
    var first: nat                  // EthHandle.TxDesc

    ghost predicate Valid()
      reads this, bufs, own
    {
      Buffers(bufs[..]) && own.Length == bufs.Length && first < bufs.Length
    }

    /** The place of the copy: buffer `k` counted from the first, which is that of descriptor `d`, at
        offset `off`; the bytes `done` have been stored in what were the buffers `was`. */
    ghost predicate Copied(was: seq<seq<Byte>>, done: seq<Byte>, k: nat, d: nat, off: nat)
      reads this, bufs, own
    {
      && Valid() && d == Ring(first, k, bufs.Length) && off <= B && |done| == k * B + off
      && Buffers(was) && bufs[..] == Stored(was, first, done)
    }

    /** memcpy to the buffer of descriptor `d` */
    method Copy(d: nat, off: nat, data: seq<Byte>)
      requires Valid() && d < bufs.Length && off + |data| <= B
      modifies bufs
      ensures bufs[..] == old(bufs[..])[d := Written(old(bufs[..])[d], off, data)] && Valid()
    {
      bufs[d] := bufs[d][..off] + data + bufs[d][off + |data|..];
    }

    /** Copying on at the current place. */
    method Append(d: nat, off: nat, data: seq<Byte>, ghost was: seq<seq<Byte>>, ghost done: seq<Byte>, ghost k: nat)
      requires Copied(was, done, k, d, off) && off + |data| <= B
      modifies bufs
      ensures Copied(was, done + data, k, d, off + |data|)
    {
      WriteAppends(was, first, done, k, off, data);
      hide Stored, Written;
      Copy(d, off, data);
    }

    lemma NextBuffer(was: seq<seq<Byte>>, done: seq<Byte>, k: nat, d: nat)
      requires Copied(was, done, k, d, B)
      ensures bufs.Length > 0 && Copied(was, done, k + 1, (d + 1) % bufs.Length, 0)
    {
      RingNext(first, k, bufs.Length);
    }

    lemma Sizes(was: seq<seq<Byte>>, done: seq<Byte>, k: nat, d: nat, off: nat)
      requires Copied(was, done, k, d, off)
      ensures Valid() && d == Ring(first, k, own.Length) && d < own.Length && |done| == k * B + off && off <= B
      ensures Buffers(was) && bufs[..] == Stored(was, first, done)
    {
    }

    /** The place of the copy when the first `at` bytes of a packet buffer have been stored behind `done`. */
    ghost predicate Within(was: seq<seq<Byte>>, done: seq<Byte>, data: seq<Byte>, at: nat, k: nat, d: nat, off: nat)
      reads this, bufs, own
    {
      Valid() && at <= |data| && off <= B && Copied(was, done + data[..at], k, d, off)
    }

    /** The next `n` bytes of a packet buffer go to the current place. */
    method AppendPart(d: nat, off: nat, data: seq<Byte>, at: nat, n: nat,
                      ghost was: seq<seq<Byte>>, ghost done: seq<Byte>, ghost k: nat)
      requires Within(was, done, data, at, k, d, off) && at + n <= |data| && off + n <= B
      modifies bufs
      ensures Within(was, done, data, at + n, k, d, off + n)
    {
      SliceNext(done, data, at, n);
      Append(d, off, data[at..at + n], was, done + data[..at], k);
      Sizes(was, done + data[..at + n], k, d, off + n);
    }

    /** The rest of the current buffer is filled, and the next descriptor is looked at. */
    method FillBuffer(d: nat, off: nat, data: seq<Byte>, at: nat,
                      ghost was: seq<seq<Byte>>, ghost done: seq<Byte>, ghost k: nat)
      returns (ok: bool, e: nat)
      requires Within(was, done, data, at, k, d, off) && off <= B < |data| - at + off
      modifies bufs
      ensures Within(was, done, data, at + B - off, k + 1, e, 0)
      ensures |done| + (at + B - off) == (k + 1) * B && own.Length > 0 && ok == !own[Ring(first, k + 1, own.Length)]
    {
      AppendPart(d, off, data, at, B - off, was, done, k);
      NextBuffer(was, done + data[..at + B - off], k, d);
      e := (d + 1) % bufs.Length;
      Sizes(was, done + data[..at + B - off], k + 1, e, 0);
      ok := !own[e];
    }

    /** The descriptors behind `k0` up to `k` are available. */
    ghost predicate Free(k0: nat, k: int)
      reads this, own
    {
      own.Length > 0 && forall m: nat :: k0 < m <= k ==> !own[Ring(first, m, own.Length)]
    }

    lemma FreeNext(k0: nat, k: nat)
      requires Free(k0, k) && !own[Ring(first, k + 1, own.Length)]
      ensures Free(k0, k + 1)
    {
    }

    lemma Start(was: seq<seq<Byte>>, done: seq<Byte>, data: seq<Byte>, k: nat, d: nat, off: nat)
      requires Copied(was, done, k, d, off)
      ensures Within(was, done, data, 0, k, d, off) && Free(k, k)
    {
      assert done + data[..0] == done;
    }

    lemma Ends(was: seq<seq<Byte>>, done: seq<Byte>, data: seq<Byte>, at: nat, k: nat, d: nat, off: nat)
      requires Within(was, done, data, at, k, d, off)
      ensures Valid() && at <= |data| && Copied(was, done + data[..at], k, d, off) && off <= B
    {
    }

    /** One packet buffer: as much as fits goes to each buffer, then the next descriptor is taken.  When
        it ends, `x` of its bytes have been stored behind those that were stored before, `done`. */
    method CopyPacket(data: seq<Byte>, d0: nat, off0: nat, ghost was: seq<seq<Byte>>, ghost done: seq<Byte>,
                      ghost k0: nat)
      returns (ok: bool, d: nat, off: nat, ghost k: nat, ghost x: nat)
      requires Copied(was, done, k0, d0, off0) && (k0 > 0 ==> off0 > 0)
      modifies bufs
      ensures Valid() && k >= k0 && Free(k0, if ok then k else k - 1)
      ensures x <= |data| && Copied(was, done + data[..x], k, d, off)
      ensures ok ==> x == |data| && (k > 0 ==> off > 0)
      ensures !ok ==> k > k0 && off == 0 && k * B < |done| + |data| && own.Length > 0 && own[Ring(first, k, own.Length)]
    {
      Start(was, done, data, k0, d0, off0);
      hide Copied, Within, Valid, Ring, Free;
      d, off, k := d0, off0, k0;
      var at: nat := 0;
      while |data| - at + off > B
        invariant Within(was, done, data, at, k, d, off) && at <= |data| && off <= B
        invariant k >= k0 && Free(k0, k) && (at == |data| && k > 0 ==> off > 0)
        decreases |data| - at + off
      {
        ok, d := FillBuffer(d, off, data, at, was, done, k);
        at, off := at + B - off, 0;
        x := at;
        if !ok {
          k := k + 1;
          Ends(was, done, data, x, k, d, off);
          return;
        }
        FreeNext(k0, k);
        k := k + 1;
      }
      AppendPart(d, off, data, at, |data| - at, was, done, k);
      off := off + (|data| - at);
      x := |data|;
      Ends(was, done, data, x, k, d, off);
      ok := true;
    }

    /** The copy loop of rt_stm32_eth_tx.  It fails exactly when a descriptor that the frame needs still
        belongs to the hardware, and has then filled the buffers before it.  Otherwise every byte of the
        frame is where it belongs, or the byte that came around the ring onto its place; the frame is
        whole if the ring has enough buffers.  No other place of any buffer changes. */
    method Transmit(chain: seq<seq<Byte>>) returns (ok: bool, length: nat, ghost copied: nat)
      requires Valid()
      modifies bufs
      ensures Valid()
      ensures ok <==> chain == [] || Available(own[..], first, Need(|Payload(chain)|))
      ensures copied <= |Payload(chain)| && bufs[..] == Stored(old(bufs[..]), first, Payload(chain)[..copied])
      ensures !ok ==> copied % B == 0 && Available(own[..], first, copied / B)
      ensures !ok ==> own[Ring(first, copied / B, own.Length)]
      ensures ok ==> length == copied == |Payload(chain)|
      ensures ok ==> forall j :: 0 <= j < length ==>
                ByteAt(bufs[..], first, j) == Payload(chain)[Latest(j, length, bufs.Length)]
      ensures ok && Need(length) <= bufs.Length ==> Frame(bufs[..], first, length) == Payload(chain)
    {
      hide Frame, Buffers, Need, Payload, Available, Stored, Latest, ByteAt, Ring;
      var d, off: nat := first, 0;
      ghost var k: nat, x: nat := 0, 0;
      ghost var was: seq<seq<Byte>> := bufs[..];
      length := 0;
      Begin();
      var i := 0;
      while i < |chain|
        invariant i <= |chain| && Copied(was, Payload(chain[..i]), k, d, off) && length == |Payload(chain[..i])|
        invariant (k > 0 ==> off > 0) && (i == 0 ==> k == 0) && Valid()
        invariant forall m :: 0 <= m <= k && i > 0 ==> !own[Ring(first, m, own.Length)]
      {
        Sizes(was, Payload(chain[..i]), k, d, off);
        if own[d] {
          Refused(chain, 0);
          Stopped(chain, i, 0, 0, 0);
          return false, length, 0;
        }
        PayloadNext(chain, i);
        ok, d, off, k, x := CopyPacket(chain[i], d, off, was, Payload(chain[..i]), k);
        if !ok {
          Sizes(was, Payload(chain[..i]) + chain[i][..x], k, d, off);
          PayloadPrefix(chain, i + 1);
          Refused(chain, k);
          Stopped(chain, i, x, k, length + x);
          return false, length, length + x;
        }
        assert chain[i][..x] == chain[i];
        length := length + |chain[i]|;
        i := i + 1;
      }
      assert chain[..i] == chain;
      Sizes(was, Payload(chain), k, d, off);
      if chain != [] {
        NeedIs(length, k, off);
        Sent(chain, k);
      }
      copied := length;
      assert Payload(chain)[..copied] == Payload(chain);
      Arrived(was, Payload(chain));
      ok := true;
    }

    lemma Begin()
      requires Valid()
      ensures Payload([]) == [] && Copied(bufs[..], [], 0, first, 0)
    {
    }

    /** What a refused frame has stored is a prefix of it that ends with a full buffer. */
    lemma Stopped(chain: seq<seq<Byte>>, i: nat, x: nat, k: nat, copied: nat)
      requires Valid() && i < |chain| && x <= |chain[i]| && copied == |Payload(chain[..i])| + x == k * B
      requires forall m :: 0 <= m < k ==> !own[Ring(first, m, own.Length)]
      ensures copied <= |Payload(chain)| && Payload(chain)[..copied] == Payload(chain[..i]) + chain[i][..x]
      ensures copied % B == 0 && copied / B == k && Available(own[..], first, k)
    {
      PayloadNext(chain, i);
      PayloadPrefix(chain, i + 1);
      Multiple(k, B);
    }

    lemma Arrived(was: seq<seq<Byte>>, data: seq<Byte>)
      requires Buffers(was)
      ensures forall j :: 0 <= j < |data| ==>
              ByteAt(Stored(was, first, data), first, j) == data[Latest(j, |data|, |was|)]
      ensures Need(|data|) <= |was| ==> Frame(Stored(was, first, data), first, |data|) == data
    {
      forall j | 0 <= j < |data| ensures ByteAt(Stored(was, first, data), first, j) == data[Latest(j, |data|, |was|)] {
        ByteIs(was, first, data, j);
      }
      if Need(|data|) <= |was| { FitsDelivers(was, first, data); }
    }

    lemma Refused(chain: seq<seq<Byte>>, k: nat)
      requires Valid() && own[Ring(first, k, own.Length)] && (k == 0 || k * B < |Payload(chain)|)
      ensures !Available(own[..], first, Need(|Payload(chain)|))
    {
      if k > 0 { NeedMore(|Payload(chain)|, k); }
    }

    lemma Sent(chain: seq<seq<Byte>>, k: nat)
      requires Valid() && Need(|Payload(chain)|) == k + 1
               && forall m :: 0 <= m <= k ==> !own[Ring(first, m, own.Length)]
      ensures Available(own[..], first, Need(|Payload(chain)|))
    {
    }
  }

  // ---------- receiving ----------

  /** The copy loop of rt_stm32_eth_rx for packet buffers of the lengths that pbuf_alloc has chosen: the
      chain holds the frame, whatever the lengths are. */
  method Receive(rows: seq<seq<Byte>>, first: nat, lens: seq<nat>) returns (chain: seq<seq<Byte>>)
    requires Buffers(rows) && first < |rows|
    ensures |chain| == |lens| && forall i :: 0 <= i < |lens| ==> |chain[i]| == lens[i]
    ensures Payload(chain) == Frame(rows, first, Sum(lens))
  {
    var d, off: nat := first, 0;
    ghost var k: nat := 0;
    chain := [];
    for i := 0 to |lens|
      invariant |chain| == i && d == Ring(first, k, |rows|) && off <= B
      invariant forall m :: 0 <= m < i ==> |chain[m]| == lens[m]
      invariant Sum(lens[..i]) == k * B + off
      invariant Payload(chain) == Frame(rows, first, k * B + off)
    {
      var q;
      q, d, off, k := ReceivePacket(rows, first, lens[i], d, off, k);
      assert lens[..i + 1][..i] == lens[..i] && (chain + [q])[..i] == chain;
      chain := chain + [q];
    }
    assert lens[..|lens|] == lens;
  }

  /** What one side sends and the other side takes out of the same buffers: any other division into packet
      buffers holds the same bytes, if the ring has room for the frame. */
  method SendAndReceive(sender: Sender, chain: seq<seq<Byte>>, lens: seq<nat>)
    returns (ok: bool, received: seq<seq<Byte>>)
    requires sender.Valid() && Sum(lens) == |Payload(chain)|
    modifies sender.bufs
    ensures ok <==> chain == [] || Available(sender.own[..], sender.first, Need(|Payload(chain)|))
    ensures ok ==> |received| == |lens| && forall i :: 0 <= i < |lens| ==> |received[i]| == lens[i]
    ensures ok && Need(|Payload(chain)|) <= sender.bufs.Length ==> Payload(received) == Payload(chain)
  {
    hide Frame, Payload, Need, Available, Stored, Latest, ByteAt;
    var length;
    ghost var copied;
    ok, length, copied := sender.Transmit(chain);
    received := [];
    if ok { received := Receive(sender.bufs[..], sender.first, lens); }
  }

  /** One packet buffer of length `len`. */
  method ReceivePacket(rows: seq<seq<Byte>>, first: nat, len: nat, d0: nat, off0: nat, ghost k0: nat)
    returns (q: seq<Byte>, d: nat, off: nat, ghost k: nat)
    requires Buffers(rows) && d0 == Ring(first, k0, |rows|) && off0 <= B
    ensures |q| == len && d == Ring(first, k, |rows|) && off <= B && k * B + off == k0 * B + off0 + len
    ensures Frame(rows, first, k0 * B + off0) + q == Frame(rows, first, k * B + off)
  {
    hide Ring, Frame;
    d, off, k, q := d0, off0, k0, [];
    ghost var was := Frame(rows, first, k0 * B + off0);
    while len - |q| + off > B
      invariant |q| <= len && d == Ring(first, k, |rows|) && off <= B && k * B + off == k0 * B + off0 + |q|
      invariant was + q == Frame(rows, first, k * B + off)
      decreases len - |q| + off
    {
      FrameNext(rows, first, k, off, B - off);
      q := q + rows[d][off..B];
      RingNext(first, k, |rows|);
      d, off, k := (d + 1) % |rows|, 0, k + 1;
    }
    var n := len - |q|;
    FrameNext(rows, first, k, off, n);
    q := q + rows[d][off..off + n];
    off := off + n;
  }

  lemma FrameNext(rows: seq<seq<Byte>>, t: nat, k: nat, off: nat, n: nat)
    requires Buffers(rows) && off + n <= B
    ensures Ring(t, k, |rows|) < |rows|
    ensures Frame(rows, t, k * B + off + n) == Frame(rows, t, k * B + off) + rows[Ring(t, k, |rows|)][off..off + n]
  {
    var f := Frame(rows, t, k * B + off) + rows[Ring(t, k, |rows|)][off..off + n];
    forall j | 0 <= j < k * B + off + n ensures ByteAt(rows, t, j) == f[j] {
      var q, o := j / B, j % B;
      assert j == q * B + o;
    }
  }
}
