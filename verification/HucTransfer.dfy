/** Injection of a bytecode file into the guest: the host's message, the device buffer behind a
    16-bit address mask, the driver's read state machine and the daemon's copy loop. */
module HucTransfer {
  import opened Bits
  import opened Irq
  import opened ModArith

  type Byte = b: nat | b < 256

  /** version, type and payload_len; payload_len is a uint16_t. */
  datatype Header = Header(version: Byte, kind: Byte, payloadLen: nat)

  datatype Msg = Msg(header: Header, payload: seq<Byte>)

  /** The four bytes of a header in memory order (little-endian length). */
  function HeaderBytes(h: Header): seq<Byte>
    requires h.payloadLen < 65536
  {
    [h.version, h.kind, h.payloadLen % 256, h.payloadLen / 256]
  }

  function HeaderOf(w: Word): Header {
    var low: nat, high: nat := w[2], w[3];
    Header(w[0], w[1], low + 256 * high)
  }

  /** prepare_huc_message for a readable file: the length is stored in 16 bits, and only that many
      bytes are read. */
  function Prepare(file: seq<Byte>): (msg: Msg)
    ensures msg.header.payloadLen == |msg.payload| == |file| % 65536
    ensures msg.payload <= file && msg.header.version == 1 && msg.header.kind == 1
  {
    var len := |file| % 65536;
    Msg(Header(1, 1, len), file[..len])
  }

  // ---------------------------------------------------------------- device buffer

  const BUF_BYTES: nat := 262144  // HUCDEV_BUF_SIZE * sizeof(uint32_t)

  /** Four bytes in memory order: one 32-bit word. */
  type Word = w: seq<Byte> | |w| == 4 witness [0, 0, 0, 0]

  function WordOf(n: nat): Word {
    [n % 256, n / 256 % 256, n / 256 / 256 % 256, n / 256 / 256 / 256 % 256]
  }

  function WordBytes(w: bv32): Word {
    WordOf(w as nat)
  }

  /** The number that ioread32 makes of four bytes. */
  function Value(b: Word): nat {
    var b0: nat, b1: nat, b2: nat, b3: nat := b[0], b[1], b[2], b[3];
    b0 + 256 * b1 + 65536 * b2 + 16777216 * b3
  }

  /** A status word is read back as the number it is. */
  lemma WordValue(w: bv32)
    ensures Value(WordBytes(w)) == w as nat
    ensures var b := WordBytes(w);
            var b0: nat, b1: nat, b2: nat, b3: nat := b[0], b[1], b[2], b[3];
            b0 + 256 * b1 + 65536 * b2 + 16777216 * b3 == w as nat
  {
    WordSmall(w);
    FourBytes(w as nat);
  }

  lemma WordSmall(w: bv32)
    ensures w as nat < 0x1_0000_0000
  {
  }

  lemma FourBytes(n: nat)
    requires n < 0x1_0000_0000
    ensures Value(WordOf(n)) == n
  {
    var a := n / 256;
    var b := a / 256;
    var c := b / 256;
    assert n == 256 * a + n % 256 && a == 256 * b + a % 256 && b == 256 * c + b % 256;
    assert c < 256;
  }

  /** And as a machine word again. */
  lemma WordAgain(w: bv32, n: nat)
    requires n == w as nat
    ensures n < 0x1_0000_0000 && ToWord(n) == w
  {
    WordSmall(w);
  }

  function ToWord(n: nat): bv32
    requires n < 0x1_0000_0000
  {
    n as bv32
  }

  /** hucdev_bufmmio_read: the address is masked to 16 bits (see MaskedAddress), and word 0 is the
      status register. (Masked, an address can never fail the device's bounds check.) */
  function ReadWord(mem: seq<Byte>, status: Word, addr: nat): Word
    requires |mem| == BUF_BYTES
  {
    var index := Wrap16(addr) / 4;
    if index == 0 then status else mem[4 * index..4 * index + 4]
  }

  /** addr & HUCDEV_BUF_MASK keeps the address modulo 2^16. */
  lemma MaskedAddress(addr: nat)
    ensures And(addr, 0xFFFF) == Wrap16(addr)
  {
    assert Pow2(8) == 256;
    Pow2Add(8, 8);
    AndMask(addr, 16);
    ModIsRemainder(addr, 0x1_0000);
  }

  /** handle_acceptfd's two receives: header at byte 16, payload at byte 20. */
  function Received(mem: seq<Byte>, msg: Msg): (m: seq<Byte>)
    requires |mem| == BUF_BYTES && msg.header.payloadLen == |msg.payload| < 65536
    ensures |m| == BUF_BYTES
  {
    mem[..16] + HeaderBytes(msg.header) + msg.payload + mem[20 + |msg.payload|..]
  }

  /** n_vCPU, a uint16_t in memory order. */
  function CountBytes(vcpus: nat): (s: seq<Byte>)
    ensures |s| == 2
  {
    [vcpus % 256, vcpus / 256 % 256]
  }

  /** The buffer after a message: an affinity message gets the vCPU count as n_vCPU. */
  function Handled(mem: seq<Byte>, msg: Msg, vcpus: nat): (m: seq<Byte>)
    requires |mem| == BUF_BYTES && msg.header.payloadLen == |msg.payload| < 65536
    ensures |m| == BUF_BYTES
  {
    var m := Received(mem, msg);
    if msg.header.kind == 3 then m[..22] + CountBytes(vcpus) + m[24..] else m
  }

  lemma ReadWordAt(mem: seq<Byte>, status: Word, addr: nat)
    requires |mem| == BUF_BYTES && addr % 4 == 0
    ensures addr == 0 ==> ReadWord(mem, status, addr) == status
    ensures 4 <= addr < 65536 ==> ReadWord(mem, status, addr) == mem[addr..addr + 4]
    ensures addr == 65536 ==> ReadWord(mem, status, addr) == status
    ensures 65540 <= addr < 131072 ==> ReadWord(mem, status, addr) == mem[addr - 65536..addr - 65532]
  {
    if addr >= 65536 {
      assert Wrap16(addr) == Wrap16(addr - 65536);
      assert (addr - 65536) % 4 == 0;
    }
  }

  /** Any address, aligned or not: its low 16 bits choose a word, and word 0 is the status. */
  lemma ReadWordIs(mem: seq<Byte>, status: Word, addr: nat)
    requires |mem| == BUF_BYTES
    ensures addr % 65536 < 4 ==> ReadWord(mem, status, addr) == status
    ensures addr % 65536 >= 4 ==>
              forall k | 0 <= k < 4 :: ReadWord(mem, status, addr)[k] == mem[addr % 65536 / 4 * 4 + k]
  {
    ModIsRemainder(addr, 65536);
  }

  /** The fields of a message in the buffer, numbers with the low byte first: the header from byte 16
      on, and the number of vCPUs in bytes 22 and 23 of an affinity message. */
  lemma HandledFields(mem: seq<Byte>, msg: Msg, vcpus: nat)
    requires |mem| == BUF_BYTES && msg.header.payloadLen == |msg.payload| < 65536
    ensures var m := Handled(mem, msg, vcpus);
            var low: nat, high: nat, count: nat, count': nat := m[18], m[19], m[22], m[23];
            && m[16] == msg.header.version && m[17] == msg.header.kind
            && low + 256 * high == |msg.payload|
            && (msg.header.kind == 3 ==> count + 256 * count' == vcpus % 65536)
  {
    var m := Received(mem, msg);
    assert m[16..20] == HeaderBytes(msg.header);
    assert forall i | 16 <= i < 20 :: Handled(mem, msg, vcpus)[i] == m[i];
    assert vcpus % 65536 == vcpus % 256 + 256 * (vcpus / 256 % 256);
  }

  /** The payload lies from byte 20 on, and the rest of the buffer stays as it was. */
  lemma HandledAt(mem: seq<Byte>, msg: Msg, vcpus: nat, i: nat)
    requires |mem| == BUF_BYTES && msg.header.payloadLen == |msg.payload| < 65536 && i < BUF_BYTES
    requires !(msg.header.kind == 3 && 22 <= i < 24)
    ensures 20 <= i < 20 + |msg.payload| ==> Handled(mem, msg, vcpus)[i] == msg.payload[i - 20]
    ensures i < 16 || i >= 20 + |msg.payload| ==> Handled(mem, msg, vcpus)[i] == mem[i]
  {
    var m := Received(mem, msg);
    assert Handled(mem, msg, vcpus)[i] == m[i];
  }

  // ---------------------------------------------------------------- driver reads

  /** The driver's flag (0 asleep, 1 payload, 2 header), payload_left and the file offset. */
  datatype Drv = Drv(flag: nat, payloadLeft: int, off: nat)

  /** Blocks: wait_event sleeps until an interrupt. Data: the count returned and the word copied.
      Fault: the word could not be copied to the reader. */
  datatype ReadResult = Blocks | Nothing | Data(count: nat, word: Word) | Fault

  /** huc_read of len bytes, given the word at the file offset. A signal ends the wait as an
      interrupt would, because the result of wait_event_interruptible is ignored; a failed copy
      leaves the offset where it was. */
  function DrvReadWith(d: Drv, len: nat, w: Word, signalled: bool, copied: bool): (Drv, ReadResult) {
    if d.flag < 1 && !signalled then (d, Blocks)
    else if d.off % 4 != 0 || len == 0 then (d, Nothing)
    else
      var e :=
        if d.flag == 2 then d.(payloadLeft := HeaderOf(w).payloadLen, flag := 1)
        else if d.flag == 1 then
          d.(payloadLeft := d.payloadLeft - len, flag := if d.payloadLeft - len <= 0 then 0 else 1)
        else d;
      if copied then (e.(off := d.off + 4), Data(len, w)) else (e, Fault)
  }

  /** What a read that gets a word does to flag and payload_left, copied or not. */
  lemma ReadAdvances(d: Drv, len: nat, w: Word, signalled: bool, copied: bool)
    requires (d.flag >= 1 || signalled) && d.off % 4 == 0 && len > 0
    ensures var (e, r) := DrvReadWith(d, len, w, signalled, copied);
            var low: nat, high: nat := w[2], w[3];
            && (d.flag == 2 ==> e.flag == 1 && e.payloadLeft == low + 256 * high)
            && (d.flag == 1 ==> e.payloadLeft == d.payloadLeft - len && (e.flag == 0 <==> d.payloadLeft <= len))
            && (d.flag == 0 ==> e.flag == 0 && e.payloadLeft == d.payloadLeft)
            && r == if copied then Data(len, w) else Fault
  {
  }

  /** An undisturbed read. */
  function DrvRead(d: Drv, len: nat, w: Word): (Drv, ReadResult) {
    DrvReadWith(d, len, w, false, true)
  }

  /** Successive 4-byte reads, whatever words the device delivers. */
  function DrvReads(d: Drv, words: seq<Word>): Drv {
    if words == [] then d
    else DrvRead(DrvReads(d, words[..|words| - 1]), 4, words[|words| - 1]).0
  }

  /** The number of 4-byte reads the daemon's loop makes for n payload bytes. */
  function Reads(n: nat): nat {
    (n + 3) / 4
  }

  lemma PayloadRead(d: Drv, w: Word)
    requires d.flag == 1 && d.off % 4 == 0
    ensures var left := d.payloadLeft - 4;
            DrvRead(d, 4, w) == (Drv(if left <= 0 then 0 else 1, left, d.off + 4), Data(4, w))
  {
  }

  /** How many payload reads the driver serves with payload_left at left. */
  function ServesLeft(left: int): nat {
    if left <= 0 then 1 else Reads(left)
  }

  /** The driver, payload_left at left, after serving k payload reads from offset off. */
  function Serving(left: int, off: nat, k: nat): Drv {
    Drv(if k < ServesLeft(left) then 1 else 0, left - 4 * k, off + 4 * k)
  }

  lemma ServingStep(left: int, off: nat, k: nat, w: Word)
    requires off % 4 == 0 && k < ServesLeft(left)
    ensures DrvRead(Serving(left, off, k), 4, w).0 == Serving(left, off, k + 1)
  {
    PayloadRead(Serving(left, off, k), w);
  }

  lemma {:induction false} PayloadReads(left: int, off: nat, words: seq<Word>)
    requires off % 4 == 0 && |words| <= ServesLeft(left)
    ensures DrvReads(Drv(1, left, off), words) == Serving(left, off, |words|)
  {
    if words != [] {
      var n := |words| - 1;
      PayloadReads(left, off, words[..n]);
      ServingStep(left, off, n, words[n]);
    }
  }

  /** Driver and daemon in lockstep: after k payload reads the driver's payload_left is the
      daemon's n - 4k, and the driver goes back to sleep exactly on the daemon's last read. */
  lemma {:induction false} Lockstep(n: nat, words: seq<Word>)
    requires n > 0 && |words| <= Reads(n)
    ensures var left := n - 4 * |words|;
            && DrvReads(Drv(1, n, 20), words) == Drv(if left > 0 then 1 else 0, left, 20 + 4 * |words|)
            && (left > 0 <==> |words| < Reads(n))
  {
    PayloadReads(n, 20, words);
  }

  /** With the flag at 2 the first word read is taken for a header. */
  lemma {:induction false} HeaderRead(d: Drv, words: seq<Word>)
    requires d.flag == 2 && d.off % 4 == 0 && words != []
    ensures DrvReads(d, words) ==
              DrvReads(Drv(1, HeaderOf(words[0]).payloadLen, d.off + 4), words[1..])
  {
    var n := |words| - 1;
    if n == 0 {
      assert DrvReads(d, words[..0]) == d;
    } else {
      HeaderRead(d, words[..n]);
      assert words[..n][1..] == words[1..][..n - 1];
    }
  }

  /** How many reads the driver serves before it goes to sleep, if w is the next word. */
  function Serves(d: Drv, w: Word): nat {
    if d.flag == 1 then ServesLeft(d.payloadLeft)
    else if d.flag == 2 then 1 + ServesLeft(HeaderOf(w).payloadLen)
    else 0
  }

  /** The driver after serving k reads, the first of which delivers w. */
  function Served(d: Drv, w: Word, k: nat): Drv {
    if d.flag == 1 then Serving(d.payloadLeft, d.off, k)
    else if d.flag == 2 && k > 0 then Serving(HeaderOf(w).payloadLen, d.off + 4, k - 1)
    else d
  }

  lemma {:induction false} ServedReads(d: Drv, words: seq<Word>, w: Word)
    requires d.flag <= 2 && d.off % 4 == 0 && |words| <= Serves(d, w)
    requires words != [] ==> words[0] == w
    ensures DrvReads(d, words) == Served(d, w, |words|)
  {
    if d.flag == 1 {
      assert d == Drv(1, d.payloadLeft, d.off);
      PayloadReads(d.payloadLeft, d.off, words);
    } else if d.flag == 2 && words != [] {
      HeaderRead(d, words);
      PayloadReads(HeaderOf(w).payloadLen, d.off + 4, words[1..]);
    }
  }

  /** Serves counts right: the flag falls with that read and not before. */
  lemma ServedFlag(d: Drv, w: Word, k: nat)
    requires d.flag <= 2 && k <= Serves(d, w)
    ensures var e := Served(d, w, k);
            && (e.flag == 0 <==> k == Serves(d, w))
            && e.flag <= d.flag && e.off == d.off + 4 * k
  {
  }

  /** The words delivered by k payload reads from offset 20. */
  function Words(mem: seq<Byte>, status: Word, k: nat): (words: seq<Word>)
    requires |mem| == BUF_BYTES
    ensures |words| == k
  {
    seq(k, i requires 0 <= i < k => ReadWord(mem, status, 20 + 4 * i))
  }

  function Bytes(words: seq<Word>): (s: seq<Byte>)
    ensures |s| == 4 * |words|
  {
    if words == [] then [] else Bytes(words[..|words| - 1]) + words[|words| - 1]
  }

  /** The bytes delivered by k payload reads. */
  function Stream(mem: seq<Byte>, status: Word, k: nat): (s: seq<Byte>)
    requires |mem| == BUF_BYTES
    ensures |s| == 4 * k
  {
    Bytes(Words(mem, status, k))
  }

  function Min(a: nat, b: nat): nat {
    if a <= b then a else b
  }

  /** The file that save_bytecode writes: the first payload_len bytes of what was read. */
  function Saved(file: seq<Byte>, mem: seq<Byte>, status: Word): (s: seq<Byte>)
    requires |mem| == BUF_BYTES
  {
    var msg := Prepare(file);
    Stream(Received(mem, msg), status, Reads(|msg.payload|))[..|msg.payload|]
  }

  // ---------------------------------------------------------------- round trip

  /** What lies behind the mask: reading past byte 65535 starts over at byte 0, where the first
      word is the status register. */
  function Behind(mem: seq<Byte>, status: Word): seq<Byte>
    requires |mem| == BUF_BYTES
  {
    status + mem[4..65536]
  }

  /** Everything the daemon can read from byte 20 on. */
  function Window(mem: seq<Byte>, status: Word): seq<Byte>
    requires |mem| == BUF_BYTES
  {
    mem[20..65536] + Behind(mem, status)
  }

  lemma WindowWord(mem: seq<Byte>, status: Word, i: nat)
    requires |mem| == BUF_BYTES && i % 4 == 0 && i < 65536
    ensures |Window(mem, status)| == 131052
    ensures Window(mem, status)[i..i + 4] == ReadWord(mem, status, 20 + i)
  {
    var addr, all := 20 + i, Window(mem, status);
    ReadWordAt(mem, status, addr);
    if addr < 65536 {
      SliceOfSlice(mem, 20, 65536, i, i + 4);
      assert all[i..i + 4] == mem[20..65536][i..i + 4];
    } else if addr == 65536 {
      assert all[i..i + 4] == status;
    } else {
      SliceOfSlice(mem, 4, 65536, addr - 65540, addr - 65536);
      assert all[i..i + 4] == mem[4..65536][addr - 65540..addr - 65536];
    }
  }

  lemma SliceOfSlice<T>(s: seq<T>, a: nat, b: nat, i: nat, j: nat)
    requires a <= b <= |s| && i <= j <= b - a
    ensures s[a..b][i..j] == s[a + i..a + j]
  {
    forall k: nat | k < j - i ensures s[a..b][i..j][k] == s[a + i..a + j][k] {
      assert s[a..b][i + k] == s[a + i + k];
    }
  }

  lemma AppendSlice<T>(s: seq<T>, i: nat, j: nat)
    requires i <= j <= |s|
    ensures s[..j] == s[..i] + s[i..j]
  {
  }

  /** The words at every fourth byte of all add up to all. */
  lemma {:induction false} BytesFrom(all: seq<Byte>, words: seq<Word>)
    requires 4 * |words| <= |all|
    requires forall i | 0 <= i < |words| :: words[i] == all[4 * i..4 * i + 4]
    ensures Bytes(words) == all[..4 * |words|]
  {
    if words != [] {
      var k := |words| - 1;
      BytesFrom(all, words[..k]);
      AppendSlice(all, 4 * k, 4 * k + 4);
    }
  }

  lemma {:induction false} StreamIs(mem: seq<Byte>, status: Word, k: nat)
    requires |mem| == BUF_BYTES && k <= 16384
    ensures |Window(mem, status)| == 131052
    ensures Stream(mem, status, k) == Window(mem, status)[..4 * k]
  {
    var all, words := Window(mem, status), Words(mem, status, k);
    WindowWord(mem, status, 0);
    forall i | 0 <= i < k ensures words[i] == all[4 * i..4 * i + 4] {
      WindowWord(mem, status, 4 * i);
    }
    BytesFrom(all, words);
  }

  lemma ReceivedPayload(mem: seq<Byte>, msg: Msg)
    requires |mem| == BUF_BYTES && msg.header.payloadLen == |msg.payload| < 65536
    ensures Received(mem, msg)[20..20 + |msg.payload|] == msg.payload
  {
  }

  /** The saved bytes: the payload up to byte 65515, then whatever lies behind the mask. */
  lemma SavedIs(file: seq<Byte>, mem: seq<Byte>, status: Word)
    requires |mem| == BUF_BYTES
    ensures var msg := Prepare(file);
            var n := |msg.payload|;
            Saved(file, mem, status) ==
              if n <= 65516 then msg.payload
              else msg.payload[..65516] + Behind(Received(mem, msg), status)[..n - 65516]
  {
    var msg := Prepare(file);
    ReceivedPayload(mem, msg);
    StreamPrefix(Received(mem, msg), status, |msg.payload|);
  }

  lemma StreamPrefix(m: seq<Byte>, status: Word, n: nat)
    requires |m| == BUF_BYTES && n < 65536
    ensures Stream(m, status, Reads(n))[..n] ==
              if n <= 65516 then m[20..20 + n]
              else m[20..20 + n][..65516] + Behind(m, status)[..n - 65516]
  {
    var k := Reads(n);
    assert n <= 4 * k <= 65536;
    StreamIs(m, status, k);
    WindowPrefix(m, status, n, k);
  }

  lemma WindowPrefix(m: seq<Byte>, status: Word, n: nat, k: nat)
    requires |m| == BUF_BYTES && n <= 4 * k <= 65536
    ensures |Window(m, status)| == 131052
    ensures Window(m, status)[..4 * k][..n] ==
              if n <= 65516 then m[20..20 + n]
              else m[20..20 + n][..65516] + Behind(m, status)[..n - 65516]
  {
    var all := Window(m, status);
    if n <= 65516 {
      SliceOfSlice(m, 20, 65536, 0, n);
      assert all[..4 * k][..n] == m[20..65536][..n];
    } else {
      assert all[..4 * k][..n] == m[20..65536] + Behind(m, status)[..n - 65516];
      assert m[20..20 + n][..65516] == m[20..65536];
    }
  }

  /** The round trip of the injection path: the daemon saves exactly the host's file if and only
      if the file has at most 65516 bytes, or it is at most 65535 bytes long and its tail happens
      to repeat the start of the device buffer. */
  lemma RoundTripIff(file: seq<Byte>, mem: seq<Byte>, status: Word)
    requires |mem| == BUF_BYTES
    ensures Saved(file, mem, status) == file <==>
              || |file| <= 65516
              || (|file| < 65536 &&
                  file[65516..] == Behind(Received(mem, Prepare(file)), status)[..|file| - 65516])
  {
    SavedIs(file, mem, status);
    if |file| < 65536 {
      assert Prepare(file).payload == file;
      if |file| > 65516 {
        var tail := Behind(Received(mem, Prepare(file)), status)[..|file| - 65516];
        assert file == file[..65516] + file[65516..];
        assert (file[..65516] + tail)[65516..] == tail;
      }
    }
  }

  /** 65516 is tight: the lengths at which every file survives are exactly 0..65516. */
  lemma SafeLengths(len: nat, mem: seq<Byte>, status: Word)
    requires |mem| == BUF_BYTES
    ensures (forall file: seq<Byte> | |file| == len :: Saved(file, mem, status) == file)
            <==> len <= 65516
  {
    if len <= 65516 {
      forall file: seq<Byte> | |file| == len ensures Saved(file, mem, status) == file {
        RoundTripIff(file, mem, status);
      }
    } else {
      BadFile(len, mem, status);
    }
  }

  lemma BadFile(len: nat, mem: seq<Byte>, status: Word)
    requires |mem| == BUF_BYTES && len > 65516
    ensures exists file: seq<Byte> :: |file| == len && Saved(file, mem, status) != file
  {
    var first: Byte := status[0];
    var file: seq<Byte> := seq(len, _ => if first == 0 then 1 else 0);
    RoundTripIff(file, mem, status);
    if len < 65536 {
      assert file[65516..][0] != first == Behind(Received(mem, Prepare(file)), status)[..len - 65516][0];
    }
    assert |file| == len && Saved(file, mem, status) != file;
  }

  // ---------------------------------------------------------------- the objects

  /** HucState: the buffer shared with the guest, and the interrupt pin. */
  class HucDev {
    var pin: Pin
    const mem: array<Byte>

    ghost predicate Valid()
      reads this
    {
      mem.Length == BUF_BYTES && (pin.line <==> pin.status != 0)
    }

    /** huc_realize: the buffer's first contents are whatever malloc returned. */
    constructor (junk: seq<Byte>)
      requires |junk| == BUF_BYTES
      ensures Valid() && fresh(mem) && mem[..] == junk && pin == Pin(0, false)
    {
      pin := Pin(0, false);
      mem := new Byte[BUF_BYTES](i requires 0 <= i < BUF_BYTES => junk[i]);
    }

    /** hucdev_raise_irq. */
    method RaiseIrq(val: bv32)
      requires Valid()
      modifies `pin
      ensures Valid() && pin == Raise(old(pin), val)
      ensures pin.status == old(pin.status) | val
    {
      var status := pin.status | val;
      pin := Pin(status, if status != 0 then true else pin.line);
    }

    /** hucdev_lower_irq. */
    method LowerIrq(val: bv32)
      requires Valid()
      modifies `pin
      ensures Valid() && pin == Lower(old(pin), val)
      ensures pin.status == old(pin.status) & !val
    {
      var status := pin.status & !val;
      pin := Pin(status, if status == 0 then false else pin.line);
    }

    /** hucdev_bufmmio_read, the result as bytes in memory order. */
    method BufMmioRead(addr: nat) returns (word: Word)
      requires Valid()
      ensures word == ReadWord(mem[..], WordBytes(pin.status), addr)
      ensures addr % 65536 < 4 ==> Value(word) == pin.status as nat
      ensures addr % 65536 >= 4 ==> word == mem[addr % 65536 / 4 * 4..][..4]
    {
      MaskedAddress(addr);
      ModIsRemainder(addr, 65536);
      WordValue(pin.status);
      var masked := And(addr, 0xFFFF);
      var index := masked / 4;
      if masked + 4 > BUF_BYTES {
        assert false;
      }
      if index == 0 {
        return WordBytes(pin.status);
      }
      word := mem[4 * index..4 * index + 4];
    }

    /** handle_acceptfd when a whole message has arrived: store header and payload, write the number
        of vCPUs into an affinity message, and interrupt the guest for an injection or an affinity
        message. The pin is left alone by the other types. */
    method HandleMessage(msg: Msg, vcpus: nat)
      requires Valid() && msg.header.payloadLen == |msg.payload| < 65536
      modifies `pin, mem
      ensures Valid() && mem[..] == Handled(old(mem[..]), msg, vcpus)
      ensures pin == if msg.header.kind == 1 then Raise(old(pin), PROGRAM_INJECTION)
                     else if msg.header.kind == 3 then Raise(old(pin), PROGRAM_INJECTION_AFFINITY)
                     else old(pin)
    {
      ghost var before := mem[..];
      Store(16, HeaderBytes(msg.header));
      Store(20, msg.payload);
      assert mem[..] == Received(before, msg);
      if msg.header.kind == 1 {
        RaiseIrq(PROGRAM_INJECTION);
      } else if msg.header.kind == 3 {
        Store(22, CountBytes(vcpus));
        assert mem[..] == Handled(before, msg, vcpus);
        RaiseIrq(PROGRAM_INJECTION_AFFINITY);
      }
    }

    /** Store the given bytes in the buffer from byte offset at on. */
    method Store(at: nat, bytes: seq<Byte>)
      requires at + |bytes| <= mem.Length
      modifies mem
      ensures mem[..] == old(mem[..at]) + bytes + old(mem[at + |bytes|..])
    {
      for i := 0 to |bytes|
        invariant mem[..] == old(mem[..at]) + bytes[..i] + old(mem[at + i..])
      {
        mem[at + i] := bytes[i];
      }
    }
  }

  /** The driver's static variables and the daemon's open file. */
  class Driver {
    var drv: Drv
    const dev: HucDev

    constructor (dev: HucDev)
      ensures this.dev == dev && drv == Drv(0, 0, 0)
    {
      this.dev := dev;
      drv := Drv(0, 0, 0);
    }

    /** ioread32 of the status register, at address 0. */
    method ReadStatus() returns (status: bv32)
      requires dev.Valid()
      ensures status == dev.pin.status
    {
      var word := dev.BufMmioRead(0);
      WordAgain(dev.pin.status, Value(word));
      status := ToWord(Value(word));
    }

    /** irq_handler: read the status, wake the reader, acknowledge what was read. */
    method IrqHandler()
      requires dev.Valid()
      modifies this, dev`pin
      ensures dev.Valid() && dev.pin.status == 0 && !dev.pin.line
      ensures drv == old(drv).(flag := Dispatch(old(dev.pin.status), old(drv.flag)))
      ensures var status := old(dev.pin.status);
              drv.flag == if status == 1 || status == 3 then 2 else if status == 22 then 1 else old(drv.flag)
    {
      var status := ReadStatus();
      drv := drv.(flag := Dispatch(status, drv.flag));
      dev.LowerIrq(status);
      ClearAll(status);
    }

    method HucRead(len: nat, signalled: bool, copied: bool) returns (r: ReadResult)
      requires dev.Valid()
      modifies this
      ensures var word := ReadWord(dev.mem[..], WordBytes(dev.pin.status), old(drv.off));
              (drv, r) == DrvReadWith(old(drv), len, word, signalled, copied)
      ensures r == Blocks <==> old(drv.flag) == 0 && !signalled
      ensures r == Nothing <==> r != Blocks && (old(drv.off) % 4 != 0 || len == 0)
      ensures r == Blocks || r == Nothing ==> drv == old(drv)
      // Header and payload reads alike copy one word and return len.
      ensures r.Data? ==> r.count == len && drv.off == old(drv.off) + 4
      ensures r.Fault? ==> !copied && drv.off == old(drv.off)
    {
      var d := drv;
      if d.flag < 1 && !signalled {
        return Blocks;
      }
      if d.off % 4 != 0 || len == 0 {
        return Nothing;
      }
      var kbuf := dev.BufMmioRead(d.off);
      if d.flag == 2 {
        d := d.(payloadLeft := HeaderOf(kbuf).payloadLen, flag := 1);
      } else if d.flag == 1 {
        d := d.(payloadLeft := d.payloadLeft - len);
        if d.payloadLeft <= 0 {
          d := d.(flag := 0);
        }
      }
      if copied {
        d := d.(off := d.off + 4);
        r := Data(len, kbuf);
      } else {
        r := Fault;
      }
      drv := d;
    }

    /** One read of the daemon. */
    method NextWord(ghost mem: seq<Byte>, ghost status: Word) returns (asleep: bool, word: Word)
      requires dev.Valid() && drv.off % 4 == 0
      requires mem == dev.mem[..] && status == WordBytes(dev.pin.status)
      modifies this
      ensures asleep <==> old(drv.flag) == 0
      ensures asleep ==> drv == old(drv)
      ensures !asleep ==>
                && word == ReadWord(mem, status, old(drv.off))
                && drv == DrvRead(old(drv), 4, word).0
    {
      var r := HucRead(4, false, true);
      asleep, word := r == Blocks, if r.Data? then r.word else [0, 0, 0, 0];
    }

    /** One more read of a copy loop that found the driver in state d and has got some words. */
    method PayloadWord(ghost mem: seq<Byte>, ghost status: Word, ghost d: Drv, ghost words: seq<Word>,
                       ghost first: Word)
      returns (asleep: bool, word: Word)
      requires dev.Valid() && mem == dev.mem[..] && status == WordBytes(dev.pin.status)
      requires d.flag <= 2 && d.off == 20 && |words| <= Serves(d, first)
      requires (words != [] ==> words[0] == first) && drv == DrvReads(d, words)
      modifies this
      ensures asleep <==> |words| == Serves(d, first)
      ensures drv == if asleep then old(drv) else DrvReads(d, words + [word])
      ensures !asleep ==> word == ReadWord(mem, status, 20 + 4 * |words|)
    {
      AfterReads(d, words, first);
      asleep, word := NextWord(mem, status);
      MoreWords(d, words, word);
    }

    /** The daemon's copy loop for a payload of n bytes, after its seek to byte 20, in whatever
        state the driver is: it makes as many of its ceil(n / 4) reads as the driver serves, and
        sleeps in the next one if that is not all of them. */
    method CopyLoop(n: nat) returns (asleep: bool, buf: seq<Byte>, calls: nat)
      requires dev.Valid() && drv.flag <= 2 && drv.off == 20
      modifies this
      ensures var mem, status := dev.mem[..], WordBytes(dev.pin.status);
              var serves := Serves(old(drv), ReadWord(mem, status, 20));
              && calls == Min(Reads(n), serves)
              && (asleep <==> serves < Reads(n))
              && buf == Stream(mem, status, calls)
              && drv == DrvReads(old(drv), Words(mem, status, calls))
              && (drv.flag == 0 <==> calls == serves)
    {
      ghost var mem, status, d := dev.mem[..], WordBytes(dev.pin.status), drv;
      ghost var first := ReadWord(mem, status, 20);
      asleep, buf, calls := false, [], 0;
      ghost var words: seq<Word> := [];
      var payloadLeft: int := n;
      while payloadLeft > 0 && !asleep
        invariant mem == dev.mem[..] && status == WordBytes(dev.pin.status)
        invariant payloadLeft == n - 4 * calls > -4 && (n == 0 ==> calls == 0)
        invariant calls <= Serves(d, first) && (asleep ==> calls == Serves(d, first) && payloadLeft > 0)
        invariant words == Words(mem, status, calls) && (words != [] ==> words[0] == first)
        invariant drv == DrvReads(d, words) && buf == Bytes(words)
        decreases payloadLeft, !asleep
      {
        var word;
        asleep, word := PayloadWord(mem, status, d, words, first);
        if !asleep {
          MoreWords(d, words, word);
          WordsStep(mem, status, calls);
          words := words + [word];
          buf := buf + word;
          calls := calls + 1;
          payloadLeft := payloadLeft - 4;
        }
      }
      ReadsSoFar(n, calls);
      AfterReads(d, words, first);
    }

    /** recv_bytecode of the daemon, in whatever state the driver is. */
    method RecvBytecode() returns (outcome: Outcome, header: Header, buf: seq<Byte>, calls: nat)
      requires dev.Valid() && drv.flag <= 2
      modifies this
      ensures outcome == AsleepAtHeader <==> old(drv.flag) == 0
      ensures outcome == AsleepAtHeader ==> drv.flag == 0
      ensures outcome != AsleepAtHeader ==>
                var mem, status := dev.mem[..], WordBytes(dev.pin.status);
                header == HeaderOf(ReadWord(mem, status, 16)) && buf == Stream(mem, status, calls)
      // Its buffer has payloadLen bytes; a last, partial word is stored past them.
      ensures outcome != AsleepAtHeader ==>
                (|buf| > header.payloadLen <==> outcome == Complete && header.payloadLen % 4 != 0)
      // Woken by an interrupt, it gets the whole message.
      ensures old(drv.flag) == 2 ==>
                && outcome == Complete && calls == Reads(header.payloadLen)
                && drv.flag == (if header.payloadLen > 0 then 0 else 1)
                && (header.payloadLen == 0 ==> drv.payloadLeft == 0)
      // With the flag still at 1 the header read takes the place of a payload read.
      ensures old(drv.flag) == 1 ==>
                var serves := ServesLeft(old(drv.payloadLeft)) - 1;
                && calls == Min(Reads(header.payloadLen), serves)
                && outcome == (if serves < Reads(header.payloadLen) then AsleepInPayload else Complete)
                && drv.flag == if calls < serves then 1 else 0
    {
      ghost var mem, status, before := dev.mem[..], WordBytes(dev.pin.status), drv;
      header, buf, calls := Header(0, 0, 0), [], 0;
      drv := drv.(off := 16);
      var asleep, word;
      asleep, word := NextWord(mem, status);
      if asleep {
        return AsleepAtHeader, header, buf, calls;
      }
      header := HeaderOf(word);
      drv := drv.(off := 20);
      AfterHeader(before, word, ReadWord(mem, status, 20));
      ghost var start := drv;
      asleep, buf, calls := CopyLoop(header.payloadLen);
      outcome := if asleep then AsleepInPayload else Complete;
      StoredBytes(header.payloadLen, calls);
      AfterReads(start, Words(mem, status, calls), ReadWord(mem, status, 20));
    }
  }

  /** How recv_bytecode ends: in a sleep at its header read, in a sleep inside its copy loop, or
      with a message. */
  datatype Outcome = AsleepAtHeader | AsleepInPayload | Complete

  // ---------------------------------------------------------------- the copy loop

  /** After these reads the driver stands at the next word, and sleeps if it has served them all. */
  lemma AfterReads(d: Drv, words: seq<Word>, first: Word)
    requires d.flag <= 2 && d.off == 20 && |words| <= Serves(d, first)
    requires words != [] ==> words[0] == first
    ensures var now := DrvReads(d, words);
            && now.off == 20 + 4 * |words| && now.flag <= d.flag
            && (now.flag == 0 <==> |words| == Serves(d, first))
  {
    ServedReads(d, words, first);
    ServedFlag(d, first, |words|);
  }

  lemma MoreWords(d: Drv, words: seq<Word>, w: Word)
    ensures DrvReads(d, words + [w]) == DrvRead(DrvReads(d, words), 4, w).0
    ensures Bytes(words + [w]) == Bytes(words) + w
  {
    assert (words + [w])[..|words|] == words;
  }

  lemma WordsStep(mem: seq<Byte>, status: Word, k: nat)
    requires |mem| == BUF_BYTES
    ensures Words(mem, status, k + 1) == Words(mem, status, k) + [ReadWord(mem, status, 20 + 4 * k)]
  {
  }

  lemma ReadsSoFar(n: nat, k: nat)
    requires n - 4 * k > -4 && (n == 0 ==> k == 0)
    ensures n - 4 * k <= 0 ==> k == Reads(n)
    ensures n - 4 * k > 0 ==> k < Reads(n)
  {
  }

  /** The reads of a copy loop store 4 bytes each: more than n bytes if and only if all reads are
      made and n is not a multiple of 4. */
  lemma StoredBytes(n: nat, calls: nat)
    requires calls <= Reads(n)
    ensures 4 * calls > n <==> calls == Reads(n) && n % 4 != 0
  {
  }

  /** How the daemon's header read and its seek to byte 20 leave the driver: with the flag at 1 the
      read uses up one of the payload reads. */
  lemma AfterHeader(d: Drv, w: Word, next: Word)
    requires d.flag == 1 || d.flag == 2
    ensures var e := DrvRead(d.(off := 16), 4, w).0.(off := 20);
            && e.flag <= 1
            && (d.flag == 2 ==> e == Drv(1, HeaderOf(w).payloadLen, 20))
            && (d.flag == 1 ==> Serves(e, next) == ServesLeft(d.payloadLeft) - 1)
  {
  }

  lemma ClearAll(v: bv32)
    ensures v & !v == 0
  {
  }

  lemma ZeroWord(w: bv32)
    requires w == 0
    ensures WordBytes(w) == [0, 0, 0, 0]
  {
    assert w as nat == 0;
  }

  lemma InjectionWakes(status: bv32, flag: nat)
    requires status <= 3
    ensures Dispatch(status | 1, flag) == 2
  {
  }

  /** A whole injection with the guest's daemon waiting: the daemon wakes up, makes ceil(n / 4)
      payload reads, saves the bytes Saved describes, and for n > 0 will sleep on its next read. */
  method Inject(driver: Driver, file: seq<Byte>) returns (saved: seq<Byte>, calls: nat)
    requires driver.dev.Valid() && driver.dev.pin.status <= 3
    modifies driver, driver.dev`pin, driver.dev.mem
    ensures saved == Saved(file, old(driver.dev.mem[..]), [0, 0, 0, 0])
    ensures calls == Reads(|file| % 65536)
    ensures driver.drv.flag == if |file| % 65536 > 0 then 0 else 1
    ensures |file| % 65536 == 0 ==> driver.drv.payloadLeft == 0
    ensures driver.dev.Valid() && driver.dev.pin == Pin(0, false)
    ensures driver.dev.mem[..] == Received(old(driver.dev.mem[..]), Prepare(file))
  {
    ghost var mem := driver.dev.mem[..];
    var msg := Prepare(file);
    InjectionWakes(driver.dev.pin.status, driver.drv.flag);
    driver.dev.HandleMessage(msg, 0);
    driver.IrqHandler();
    ZeroWord(driver.dev.pin.status);
    HeaderArrives(mem, msg, [0, 0, 0, 0]);
    var outcome, header, buf;
    outcome, header, buf, calls := driver.RecvBytecode();
    saved := buf[..header.payloadLen];
  }

  /** A payload of length 0 (an empty file, or a multiple of 65536 bytes) leaves the driver's flag at
      1. So the daemon's next call does not sleep: without any interrupt it receives the same empty
      message once more, and only then does the driver sleep. */
  method EmptyArrivesTwice(driver: Driver, file: seq<Byte>) returns (outcome: Outcome, header: Header)
    requires driver.dev.Valid() && driver.dev.pin.status <= 3 && |file| % 65536 == 0
    modifies driver, driver.dev`pin, driver.dev.mem
    ensures outcome == Complete && header == Prepare(file).header && header.payloadLen == 0
    ensures driver.drv.flag == 0
  {
    ghost var mem := driver.dev.mem[..];
    var saved, calls := Inject(driver, file);
    HeaderArrives(mem, Prepare(file), WordBytes(driver.dev.pin.status));
    var buf;
    outcome, header, buf, calls := driver.RecvBytecode();
  }

  lemma HeaderArrives(mem: seq<Byte>, msg: Msg, status: Word)
    requires |mem| == BUF_BYTES && msg.header.payloadLen == |msg.payload| < 65536
    ensures HeaderOf(ReadWord(Received(mem, msg), status, 16)) == msg.header
  {
    ReadWordAt(Received(mem, msg), status, 16);
  }
}
