/**
  The Rabbit keystream generator of rabbit.go (RFC 4503, section 2): one
  engine value holding the working state x, c, b, a master copy of it taken
  at the end of key setup, and the flag that gates IV setup. Every
  operation is a pure function from the engine before the call to the
  engine after it (plus what the call returns).
 */
module Rabbit {
  import opened Words
  import opened GFunction

  /** A lane index below 16 reduced modulo 8: the lane `i` steps past
      lane 0 when counting around the eight lanes. */
  function Wrap(i: nat): (j: nat)
    requires i < 16
    ensures j < 8 && j % 8 == i % 8
  {
    if i < 8 then i else i - 8
  }

  /** The counter constants a[0..7] (RFC 4503, section 2.5). */
  const A: seq<Word> := [0x4D34D34D, 0xD34D34D3, 0x34D34D34, 0x4D34D34D,
                         0xD34D34D3, 0x34D34D34, 0x4D34D34D, 0xD34D34D3]

  /** The constants are the three words of RFC 4503, section 2.5,
      repeated with period three. */
  lemma ConstantsRepeat()
    ensures A[0] == 0x4D34D34D && A[1] == 0xD34D34D3 && A[2] == 0x34D34D34
    ensures forall j :: 3 <= j < 8 ==> A[j] == A[j - 3]
  {
  }

  /** Go's `[8]uint32`. */
  type Lanes = s: seq<Word> | |s| == 8 witness [0, 0, 0, 0, 0, 0, 0, 0]

  const Zero: Lanes := [0, 0, 0, 0, 0, 0, 0, 0]

  /** The `rabbit` struct. */
  datatype Engine = Engine(
    x: Lanes, masterX: Lanes,
    c: Lanes, masterC: Lanes,
    b: Byte, masterB: Byte,
    keySetupCalled: bool)

  /** The engine `newRabbit` returns: every field zero, no key. */
  const Initial: Engine := Engine(Zero, Zero, Zero, Zero, 0, 0, false)

  datatype Error = KeyNotSet | InvalidLength

  /** What `setupKey` / `setupIV` return: nil or an error. */
  datatype Status = Ok | Failed(error: Error)

  /** The engine after a setup call, with the call's result. */
  datatype Outcome = Outcome(engine: Engine, status: Status)

  /** The engine after `keyStream`, with the bytes it returned. */
  datatype Block = Block(engine: Engine, bytes: seq<Byte>)

  /* ---------------------------------------------------------------------
     Counter system (RFC 4503, section 2.5).
     --------------------------------------------------------------------- */

  /** 2^(32 k): the weight of counter lane k, for k in 0..8. */
  function LaneWeight(k: nat): nat
    requires k <= 8
  {
    [ 0x1,
      0x1_0000_0000,
      0x1_0000_0000_0000_0000,
      0x1_0000_0000_0000_0000_0000_0000,
      0x1_0000_0000_0000_0000_0000_0000_0000_0000,
      0x1_0000_0000_0000_0000_0000_0000_0000_0000_0000_0000,
      0x1_0000_0000_0000_0000_0000_0000_0000_0000_0000_0000_0000_0000,
      0x1_0000_0000_0000_0000_0000_0000_0000_0000_0000_0000_0000_0000_0000_0000,
      0x1_0000_0000_0000_0000_0000_0000_0000_0000_0000_0000_0000_0000_0000_0000_0000_0000 ][k]
  }

  /** The eight counter lanes read as one 256-bit number, lane 0 least
      significant. */
  function CounterValue(c: Lanes): (v: nat)
    ensures v < LaneWeight(8)
  {
    c[0] + c[1] * LaneWeight(1) + c[2] * LaneWeight(2) + c[3] * LaneWeight(3)
    + c[4] * LaneWeight(4) + c[5] * LaneWeight(5) + c[6] * LaneWeight(6) + c[7] * LaneWeight(7)
  }

  /** One iteration of the counter loop of `nextState`: `t` is the uint64
      sum of counter word, constant and carry (below 2^34, so it never
      wraps), the new counter word is `t & 0xFFFFFFFF`, and the carry
      becomes 1 exactly when `byte(t >> 32)` is non-zero. */
  function CounterLane(ci: Word, ai: Word, carry: Byte): (r: (Word, Byte))
    ensures r.0 == (ci + ai + carry) % 0x1_0000_0000
    ensures r.1 == (if ci + ai + carry >= 0x1_0000_0000 then 1 else 0)
    ensures ci + ai + carry < 2 * 0x1_0000_0000 ==> r.0 + r.1 * 0x1_0000_0000 == ci + ai + carry
  {
    var t := ci + ai + carry;
    (t % 0x1_0000_0000, if t / 0x1_0000_0000 % 0x100 > 0 then 1 else 0)
  }

  /** The counter loop of `nextState`, lane 0 to lane 7, each lane's carry
      feeding the next. Together the lanes are a 256-bit add-with-carry of
      the constants: the new counter plus 2^256 times the carry out is the
      old counter plus the constants plus the carry in. */
  function CounterUpdate(c: Lanes, carry: Byte): (r: (Lanes, Byte))
    ensures r.1 <= 1
    ensures CounterValue(r.0) + r.1 * LaneWeight(8) == CounterValue(c) + CounterValue(A) + carry
  {
    var (c0, b0) := CounterLane(c[0], A[0], carry);
    var (c1, b1) := CounterLane(c[1], A[1], b0);
    var (c2, b2) := CounterLane(c[2], A[2], b1);
    var (c3, b3) := CounterLane(c[3], A[3], b2);
    var (c4, b4) := CounterLane(c[4], A[4], b3);
    var (c5, b5) := CounterLane(c[5], A[5], b4);
    var (c6, b6) := CounterLane(c[6], A[6], b5);
    var (c7, b7) := CounterLane(c[7], A[7], b6);
    var lanes: seq<Word> := [c0, c1, c2, c3, c4, c5, c6, c7];
    (lanes, b7)
  }

  /** The counter update read modulo 2^256: the new counter is the sum
      reduced modulo 2^256 and the carry out says whether it overflowed. */
  lemma CounterUpdateModular(c: Lanes, carry: Byte)
    ensures var total := CounterValue(c) + CounterValue(A) + carry;
      && CounterValue(CounterUpdate(c, carry).0) == total % LaneWeight(8)
      && CounterUpdate(c, carry).1 == (if total >= LaneWeight(8) then 1 else 0)
  {
    var r := CounterUpdate(c, carry);
    DivModUnique(CounterValue(c) + CounterValue(A) + carry, LaneWeight(8), r.1, CounterValue(r.0));
  }

  /* ---------------------------------------------------------------------
     Next-state function (RFC 4503, section 2.6).
     --------------------------------------------------------------------- */

  /** The g loop of `nextState`: lane j squares the 32-bit sum of state
      word j and the new counter word j in a uint64 and folds the halves.
      Lane by lane this is the g-function of RFC 4503. */
  function GValues(x: Lanes, c: Lanes): (g: Lanes)
    ensures forall j :: 0 <= j < 8 ==> g[j] == SquareFold(Add32(x[j], c[j]))
  {
    seq(8, j requires 0 <= j < 8 => G(x[j], c[j]))
  }

  /** The g values as RFC 4503 defines them, from full-precision squares. */
  function RfcG(x: Lanes, c: Lanes): Lanes
  {
    seq(8, j requires 0 <= j < 8 => SquareFold(Add32(x[j], c[j])))
  }

  /** Three words summed in a uint64 (no wrap possible) and masked to 32
      bits: the same as two wrapping uint32 additions. */
  function Add3(p: Word, q: Word, r: Word): (s: Word)
    ensures s == Add32(Add32(p, q), r)
  {
    (p as int + q + r) % 0x1_0000_0000
  }

  /** The assignment of `nextState` that computes new state word j from
      the g values, in the order the implementation writes them. */
  function DiffuseLane(g: Lanes, j: nat): Word
    requires j < 8
  {
    match j
    case 0 => Add3(g[0], RotateLeft16(g[7]), RotateLeft16(g[6]))
    case 1 => Add3(g[1], RotateLeft8(g[0]), g[7])
    case 2 => Add3(g[2], RotateLeft16(g[1]), RotateLeft16(g[0]))
    case 3 => Add3(g[3], RotateLeft8(g[2]), g[1])
    case 4 => Add3(g[4], RotateLeft16(g[3]), RotateLeft16(g[2]))
    case 5 => Add3(g[5], RotateLeft8(g[4]), g[3])
    case 6 => Add3(g[6], RotateLeft16(g[5]), RotateLeft16(g[4]))
    case 7 => Add3(g[7], RotateLeft8(g[6]), g[5])
  }

  /** The rotate-and-add network that turns the eight g values into the new
      state words. Its eight assignments follow the one rule of RFC 4503,
      section 2.6: an even lane 2k adds its two predecessors rotated by 16,
      an odd lane 2k+1 adds its predecessor rotated by 8 and the lane before
      that unrotated (indices mod 8). */
  function Diffuse(g: Lanes): (d: Lanes)
    ensures forall k {:trigger d[2 * k]} :: 0 <= k < 4 ==>
      d[2 * k] == Add3(g[2 * k], RotateLeft16(g[Wrap(2 * k + 7)]), RotateLeft16(g[Wrap(2 * k + 6)]))
    ensures forall k {:trigger d[2 * k + 1]} :: 0 <= k < 4 ==>
      d[2 * k + 1] == Add3(g[2 * k + 1], RotateLeft8(g[2 * k]), g[Wrap(2 * k + 7)])
  {
    DiffuseRule(g);
    seq(8, j requires 0 <= j < 8 => DiffuseLane(g, j))
  }

  /** The rule of `Diffuse`, for all eight assignments. */
  lemma DiffuseRule(g: Lanes)
    ensures forall k :: 0 <= k < 4 ==>
      DiffuseLane(g, 2 * k) == Add3(g[2 * k], RotateLeft16(g[Wrap(2 * k + 7)]), RotateLeft16(g[Wrap(2 * k + 6)]))
    ensures forall k :: 0 <= k < 4 ==>
      DiffuseLane(g, 2 * k + 1) == Add3(g[2 * k + 1], RotateLeft8(g[2 * k]), g[Wrap(2 * k + 7)])
  {
    forall k | 0 <= k < 4 {
      DiffuseEvenLane(g, k);
    }
    forall k | 0 <= k < 4 {
      DiffuseOddLane(g, k);
    }
  }

  /** The even lane 2k of `DiffuseRule`, checked assignment by assignment. */
  lemma DiffuseEvenLane(g: Lanes, k: nat)
    requires k < 4
    ensures DiffuseLane(g, 2 * k) == Add3(g[2 * k], RotateLeft16(g[Wrap(2 * k + 7)]), RotateLeft16(g[Wrap(2 * k + 6)]))
  {
    match k
    case 0 =>
    case 1 =>
    case 2 =>
    case 3 =>
  }

  /** The odd lane 2k+1 of `DiffuseRule`, checked assignment by assignment. */
  lemma DiffuseOddLane(g: Lanes, k: nat)
    requires k < 4
    ensures DiffuseLane(g, 2 * k + 1) == Add3(g[2 * k + 1], RotateLeft8(g[2 * k]), g[Wrap(2 * k + 7)])
  {
    match k
    case 0 =>
    case 1 =>
    case 2 =>
    case 3 =>
  }

  /** `nextState`: counter update, then g values from the old state words
      and the new counters, then the diffusion network. Only x, c and b
      change; the carry it leaves is always 0 or 1, and the counter advances
      as one 256-bit add-with-carry. */
  function NextState(s: Engine): (n: Engine)
    ensures n.masterX == s.masterX && n.masterC == s.masterC && n.masterB == s.masterB
    ensures n.keySetupCalled == s.keySetupCalled
    ensures n.b <= 1
    ensures CounterValue(n.c) + n.b * LaneWeight(8) == CounterValue(s.c) + CounterValue(A) + s.b
  {
    var (c, b) := CounterUpdate(s.c, s.b);
    s.(x := Diffuse(GValues(s.x, c)), c := c, b := b)
  }

  /** The new state words are the diffusion network applied to the RFC
      g values of the old state words and the new counter words. */
  lemma NextStateUsesRfcG(s: Engine)
    ensures NextState(s).x == Diffuse(RfcG(s.x, NextState(s).c))
  {
    var c := NextState(s).c;
    assert GValues(s.x, c) == RfcG(s.x, c);
  }

  /* ---------------------------------------------------------------------
     Key setup (RFC 4503, section 2.3).
     --------------------------------------------------------------------- */

  /** The subkeys k[0..7]: `k[i] = (uint16(key[2i+1]) << 8) | uint16(key[2i])`. */
  function Subkeys(key: seq<Byte>): (k: seq<Half>)
    requires |key| == 16
    ensures |k| == 8
    ensures forall i :: 0 <= i < 8 ==> LowByte(k[i]) == key[2 * i] && HighByte(k[i]) == key[2 * i + 1]
  {
    seq(8, i requires 0 <= i < 8 => LittleEndian16(key[2 * i], key[2 * i + 1]))
  }

  /** Subkey i is bits 16 i + 15 .. 16 i of the key read as one 128-bit
      little-endian number, the K^[i] of RFC 4503, section 2.3. */
  lemma SubkeysAreKeySlices(key: seq<Byte>)
    requires |key| == 16
    ensures forall i :: 0 <= i < 8 ==> Subkeys(key)[i] == Slice16(LittleEndianValue(key), i)
  {
    forall i | 0 <= i < 8 {
      LittleEndianSlice16(key, i);
    }
  }

  /** The initial state words built from subkey pairs. An even lane j joins
      k[j+1] over k[j]; an odd lane joins k[j+5] over k[j+4] (indices mod 8). */
  function InitialX(k: seq<Half>): (x: Lanes)
    requires |k| == 8
    ensures forall j :: 0 <= j < 8 && j % 2 == 0 ==> x[j] == Join(k[Wrap(j + 1)], k[j])
    ensures forall j :: 0 <= j < 8 && j % 2 == 1 ==> x[j] == Join(k[Wrap(j + 5)], k[Wrap(j + 4)])
  {
    var x: seq<Word> :=
    [ Join(k[1], k[0]), Join(k[6], k[5]), Join(k[3], k[2]), Join(k[0], k[7]),
      Join(k[5], k[4]), Join(k[2], k[1]), Join(k[7], k[6]), Join(k[4], k[3]) ];
    x
  }

  /** The initial counter words built from subkey pairs. An even lane j
      joins k[j+4] over k[j+5]; an odd lane joins k[j] over k[j+1]
      (indices mod 8). */
  function InitialC(k: seq<Half>): (c: Lanes)
    requires |k| == 8
    ensures forall j :: 0 <= j < 8 && j % 2 == 0 ==> c[j] == Join(k[Wrap(j + 4)], k[Wrap(j + 5)])
    ensures forall j :: 0 <= j < 8 && j % 2 == 1 ==> c[j] == Join(k[j], k[Wrap(j + 1)])
  {
    var c: seq<Word> :=
    [ Join(k[4], k[5]), Join(k[1], k[2]), Join(k[6], k[7]), Join(k[3], k[4]),
      Join(k[0], k[1]), Join(k[5], k[6]), Join(k[2], k[3]), Join(k[7], k[0]) ];
    c
  }

  /** The last step of key setup: every counter word is XORed with the
      state word four lanes further on. */
  function FoldBack(c: Lanes, x: Lanes): (r: Lanes)
    ensures forall j :: 0 <= j < 8 ==> r[j] == Xor32(c[j], x[Wrap(j + 4)])
  {
    var r: seq<Word> :=
    [ Xor32(c[0], x[4]), Xor32(c[1], x[5]), Xor32(c[2], x[6]), Xor32(c[3], x[7]),
      Xor32(c[4], x[0]), Xor32(c[5], x[1]), Xor32(c[6], x[2]), Xor32(c[7], x[3]) ];
    r
  }

  /** `setupKey`. A key that is not 16 bytes is refused and the engine is
      left exactly as it was. Otherwise the engine is reset, the state is
      built from the key, advanced four times, the counters are folded with
      the state, and the result is saved as the master copy. */
  function SetupKey(r: Engine, key: seq<Byte>): (o: Outcome)
    ensures |key| != 16 ==> o == Outcome(r, Failed(InvalidLength))
    ensures |key| == 16 ==> o.status == Ok && o.engine.keySetupCalled
    ensures |key| == 16 ==>
      o.engine.masterX == o.engine.x && o.engine.masterC == o.engine.c && o.engine.masterB == o.engine.b
    ensures |key| == 16 ==> o.engine.b <= 1
  {
    if |key| != 16 then Outcome(r, Failed(InvalidLength))
    else
      var cleared := Reset(r).(keySetupCalled := true);
      var k := Subkeys(key);
      var loaded := cleared.(x := InitialX(k), c := InitialC(k));
      var mixed := NextState(NextState(NextState(NextState(loaded))));
      var folded := mixed.(c := FoldBack(mixed.c, mixed.x));
      Outcome(folded.(masterX := folded.x, masterC := folded.c, masterB := folded.b), Ok)
  }

  /** The eight 16-bit slices K^[0..7] of the key read as one 128-bit
      number. Nothing of the key is lost: the slices, lowest first, put
      back together give the key's low 128 bits. */
  function KeySlices(kv: nat): (k: seq<Half>)
    ensures |k| == 8
    ensures HalvesValue(k) == kv % 0x1_0000_0000_0000_0000_0000_0000_0000_0000
  {
    SlicesRecombine(kv, 8);
    Pow2Of128();
    Slices16(kv, 8)
  }

  /** 2^128, the size of a key. */
  lemma Pow2Of128()
    ensures Pow2(128) == 0x1_0000_0000_0000_0000_0000_0000_0000_0000
  {
    Pow2Widths();
    Pow2Add(32, 32);
    Pow2Add(64, 64);
  }

  /** The state words RFC 4503, section 2.3 loads from the key read as one
      128-bit number K, with K^[i] its i-th 16-bit slice: X_j = K^[j+1] ||
      K^[j] for even j and X_j = K^[j+5] || K^[j+4] for odd j (mod 8). */
  function RfcLoadX(kv: nat): Lanes
  {
    var k := KeySlices(kv);
    var x: seq<Word> :=
    [ Join(k[0 + 1], k[0]), Join(k[1 + 5], k[1 + 4]), Join(k[2 + 1], k[2]), Join(k[3 + 5 - 8], k[3 + 4]),
      Join(k[4 + 1], k[4]), Join(k[5 + 5 - 8], k[5 + 4 - 8]), Join(k[6 + 1], k[6]), Join(k[7 + 5 - 8], k[7 + 4 - 8]) ];
    x
  }

  /** The counter words RFC 4503, section 2.3 loads: C_j = K^[j+4] ||
      K^[j+5] for even j and C_j = K^[j] || K^[j+1] for odd j (mod 8). */
  function RfcLoadC(kv: nat): Lanes
  {
    var k := KeySlices(kv);
    var c: seq<Word> :=
    [ Join(k[0 + 4], k[0 + 5]), Join(k[1], k[1 + 1]), Join(k[2 + 4], k[2 + 5]), Join(k[3], k[3 + 1]),
      Join(k[4 + 4 - 8], k[4 + 5 - 8]), Join(k[5], k[5 + 1]), Join(k[6 + 4 - 8], k[6 + 5 - 8]), Join(k[7], k[7 + 1 - 8]) ];
    c
  }

  /** Key setup as RFC 4503, section 2.3 describes it: load from K with the
      carry at 0, iterate four times, fold every counter word with the state
      word four lanes on (the rule `FoldBack` is proved to follow), and keep
      the result as the master copy. */
  function RfcKeySetup(key: seq<Byte>): Engine
    requires |key| == 16
  {
    var kv := LittleEndianValue(key);
    var s := NextState(NextState(NextState(NextState(Engine(RfcLoadX(kv), Zero, RfcLoadC(kv), Zero, 0, 0, true)))));
    var c := FoldBack(s.c, s.x);
    Engine(s.x, s.x, c, c, s.b, s.b, true)
  }

  /** The implementation's table of subkey pairs loads what the RFC loads. */
  lemma LoadFollowsRfc(key: seq<Byte>)
    requires |key| == 16
    ensures InitialX(Subkeys(key)) == RfcLoadX(LittleEndianValue(key))
    ensures InitialC(Subkeys(key)) == RfcLoadC(LittleEndianValue(key))
  {
    SubkeysAreKeySlices(key);
    LoadFromSlices(LittleEndianValue(key), Subkeys(key));
  }

  /** `LoadFollowsRfc` for any subkeys that are the slices of kv. */
  lemma LoadFromSlices(kv: nat, k: seq<Half>)
    requires |k| == 8
    requires forall i :: 0 <= i < 8 ==> k[i] == Slice16(kv, i)
    ensures InitialX(k) == RfcLoadX(kv) && InitialC(k) == RfcLoadC(kv)
  {
    forall j | 0 <= j < 8 {
      LoadLaneX(kv, k, j);
    }
    forall j | 0 <= j < 8 {
      LoadLaneC(kv, k, j);
    }
    SameLanes(InitialX(k), RfcLoadX(kv));
    SameLanes(InitialC(k), RfcLoadC(kv));
  }

  /** Lane vectors that agree lane by lane are equal. */
  lemma SameLanes(a: Lanes, b: Lanes)
    requires forall j :: 0 <= j < 8 ==> a[j] == b[j]
    ensures a == b
  {
  }

  /** One state lane of `LoadFromSlices`. */
  lemma LoadLaneX(kv: nat, k: seq<Half>, j: nat)
    requires |k| == 8 && j < 8
    requires forall i :: 0 <= i < 8 ==> k[i] == Slice16(kv, i)
    ensures InitialX(k)[j] == RfcLoadX(kv)[j]
  {
    match j
    case 0 => case 1 => case 2 => case 3 =>
    case 4 => case 5 => case 6 => case 7 =>
  }

  /** One counter lane of `LoadFromSlices`. */
  lemma LoadLaneC(kv: nat, k: seq<Half>, j: nat)
    requires |k| == 8 && j < 8
    requires forall i :: 0 <= i < 8 ==> k[i] == Slice16(kv, i)
    ensures InitialC(k)[j] == RfcLoadC(kv)[j]
  {
    match j
    case 0 => case 1 => case 2 => case 3 =>
    case 4 => case 5 => case 6 => case 7 =>
  }

  /** A successful `setupKey` produces exactly the engine of the RFC key
      setup, whatever engine it was called on. */
  lemma SetupKeyFollowsRfc(r: Engine, key: seq<Byte>)
    requires |key| == 16
    ensures SetupKey(r, key) == Outcome(RfcKeySetup(key), Ok)
  {
    LoadFollowsRfc(key);
  }

  /* ---------------------------------------------------------------------
     IV setup (RFC 4503, section 2.4).
     --------------------------------------------------------------------- */

  /** The IV halves siv[0..3]: `siv[i] = (uint16(iv[2i+1]) << 8) | uint16(iv[2i])`. */
  function IvHalves(iv: seq<Byte>): (v: seq<Half>)
    requires |iv| == 8
    ensures |v| == 4
    ensures forall i :: 0 <= i < 4 ==> LowByte(v[i]) == iv[2 * i] && HighByte(v[i]) == iv[2 * i + 1]
  {
    seq(4, i requires 0 <= i < 4 => LittleEndian16(iv[2 * i], iv[2 * i + 1]))
  }

  /** IV half i is bits 16 i + 15 .. 16 i of the IV read as one 64-bit
      little-endian number. */
  lemma IvHalvesAreIvSlices(iv: seq<Byte>)
    requires |iv| == 8
    ensures forall i :: 0 <= i < 4 ==> IvHalves(iv)[i] == Slice16(LittleEndianValue(iv), i)
  {
    forall i | 0 <= i < 4 {
      LittleEndianSlice16(iv, i);
    }
  }

  /** The words XORed into the counters: lanes 4..7 repeat lanes 0..3. */
  function IvMasks(v: seq<Half>): (m: Lanes)
    requires |v| == 4
    ensures forall j :: 4 <= j < 8 ==> m[j] == m[j - 4]
  {
    var m: seq<Word> :=
    [ Join(v[1], v[0]), Join(v[3], v[1]), Join(v[3], v[2]), Join(v[2], v[0]),
      Join(v[1], v[0]), Join(v[3], v[1]), Join(v[3], v[2]), Join(v[2], v[0]) ];
    m
  }

  /** The counter modification of RFC 4503, section 2.4, with IV[16 i +
      15 .. 16 i] the i-th 16-bit slice of the IV: c0 and c4 take IV[31..0],
      c1 and c5 take IV[63..48] || IV[31..16], c2 and c6 take IV[63..32],
      c3 and c7 take IV[47..32] || IV[15..0]. */
  lemma IvMasksFollowRfc(iv: seq<Byte>)
    requires |iv| == 8
    ensures var m, v := IvMasks(IvHalves(iv)), LittleEndianValue(iv);
      && m[0] == m[4] == Join(Slice16(v, 1), Slice16(v, 0))
      && m[1] == m[5] == Join(Slice16(v, 3), Slice16(v, 1))
      && m[2] == m[6] == Join(Slice16(v, 3), Slice16(v, 2))
      && m[3] == m[7] == Join(Slice16(v, 2), Slice16(v, 0))
  {
    IvHalvesAreIvSlices(iv);
  }

  /** The counter masks of RFC 4503, section 2.4, built from the IV read
      as one 64-bit number V with V^[i] its i-th 16-bit slice: lanes j and
      j+4 take V^[1] || V^[0], V^[3] || V^[1], V^[3] || V^[2] and
      V^[2] || V^[0] for j = 0, 1, 2, 3. */
  function RfcIvMasks(v: nat): Lanes
  {
    var m0, m1 := Join(Slice16(v, 1), Slice16(v, 0)), Join(Slice16(v, 3), Slice16(v, 1));
    var m2, m3 := Join(Slice16(v, 3), Slice16(v, 2)), Join(Slice16(v, 2), Slice16(v, 0));
    var m: seq<Word> := [m0, m1, m2, m3, m0, m1, m2, m3];
    m
  }

  /** IV setup as RFC 4503, section 2.4 describes it, starting from the
      state key setup left: the master copy is the starting point, every
      counter word is XORed with its mask, and the state is iterated four
      times. The master copy and the flag are carried along untouched. */
  function RfcIvSetup(r: Engine, iv: seq<Byte>): Engine
    requires |iv| == 8
  {
    var masks := RfcIvMasks(LittleEndianValue(iv));
    var c: seq<Word> := seq(8, j requires 0 <= j < 8 => Xor32(r.masterC[j], masks[j]));
    var s := Engine(r.masterX, r.masterX, c, r.masterC, r.masterB, r.masterB, r.keySetupCalled);
    NextState(NextState(NextState(NextState(s))))
  }

  /** The implementation's masks are those of the RFC. */
  lemma IvMasksAreRfcMasks(iv: seq<Byte>)
    requires |iv| == 8
    ensures IvMasks(IvHalves(iv)) == RfcIvMasks(LittleEndianValue(iv))
  {
    IvMasksFollowRfc(iv);
    SameLanes(IvMasks(IvHalves(iv)), RfcIvMasks(LittleEndianValue(iv)));
  }

  /** Lane-wise XOR of the counters with the masks. Nothing is lost: XORing
      the same masks in again gives the counters back. */
  function XorLanes(c: Lanes, m: Lanes): (r: Lanes)
    ensures forall j :: 0 <= j < 8 ==> Xor32(r[j], m[j]) == c[j]
  {
    XorLanesUndo(c, m);
    seq(8, j requires 0 <= j < 8 => Xor32(c[j], m[j]))
  }

  /** Every lane XORed twice with the same mask word is unchanged. */
  lemma XorLanesUndo(c: Lanes, m: Lanes)
    ensures forall j :: 0 <= j < 8 ==> Xor32(Xor32(c[j], m[j]), m[j]) == c[j]
  {
    forall j | 0 <= j < 8 {
      Xor32Twice(c[j], m[j]);
    }
  }

  /** `setupIV`. Without a prior key setup it fails with KeyNotSet (checked
      first); an IV that is not 8 bytes fails with InvalidLength; both
      leave the engine unchanged. Otherwise the working state is restored
      from the master copy, the IV is XORed into the counters and the state
      is advanced four times. The master copy and the flag never change. */
  function SetupIV(r: Engine, iv: seq<Byte>): (o: Outcome)
    ensures !r.keySetupCalled ==> o == Outcome(r, Failed(KeyNotSet))
    ensures r.keySetupCalled && |iv| != 8 ==> o == Outcome(r, Failed(InvalidLength))
    ensures r.keySetupCalled && |iv| == 8 ==> o.status == Ok
    ensures o.engine.masterX == r.masterX && o.engine.masterC == r.masterC
    ensures o.engine.masterB == r.masterB && o.engine.keySetupCalled == r.keySetupCalled
    ensures r.keySetupCalled && |iv| == 8 ==> o.engine.b <= 1
  {
    if !r.keySetupCalled then Outcome(r, Failed(KeyNotSet))
    else if |iv| != 8 then Outcome(r, Failed(InvalidLength))
    else
      var restored := r.(x := r.masterX, c := r.masterC, b := r.masterB);
      var masked := restored.(c := XorLanes(restored.c, IvMasks(IvHalves(iv))));
      Outcome(NextState(NextState(NextState(NextState(masked)))), Ok)
  }

  /** A successful `setupIV` produces exactly the engine of the RFC IV
      setup: what it computes depends on the master copy and the IV, and on
      nothing else. */
  lemma SetupIVFollowsRfc(r: Engine, iv: seq<Byte>)
    requires r.keySetupCalled && |iv| == 8
    ensures SetupIV(r, iv) == Outcome(RfcIvSetup(r, iv), Ok)
  {
    IvMasksAreRfcMasks(iv);
    var masks := RfcIvMasks(LittleEndianValue(iv));
    var c: seq<Word> := seq(8, j requires 0 <= j < 8 => Xor32(r.masterC[j], masks[j]));
    SameLanes(XorLanes(r.masterC, IvMasks(IvHalves(iv))), c);
  }

  /* ---------------------------------------------------------------------
     Reset and extraction (RFC 4503, section 2.7).
     --------------------------------------------------------------------- */

  /** `reset`: every field is overwritten, so nothing of the old engine
      survives and the result is the freshly constructed engine. */
  function Reset(r: Engine): (z: Engine)
    ensures z == Initial
  {
    r.(x := Zero, c := Zero, masterX := Zero, masterC := Zero, b := 0, masterB := 0, keySetupCalled := false)
  }

  /** Output word m of a block: bytes 2m and 2m+1 read little-endian. */
  function OutputWord(bytes: seq<Byte>, m: nat): Half
    requires 2 * m + 1 < |bytes|
  {
    LittleEndian16(bytes[2 * m], bytes[2 * m + 1])
  }

  /** Output word m of `keyStream`, in the order it writes them: the low
      half of one state word XOR the high half of another. */
  function OutputHalf(x: Lanes, m: nat): Half
    requires m < 8
  {
    match m
    case 0 => Xor16(Low16(x[0]), High16(x[5]))
    case 1 => Xor16(Low16(x[3]), High16(x[0]))
    case 2 => Xor16(Low16(x[2]), High16(x[7]))
    case 3 => Xor16(Low16(x[5]), High16(x[2]))
    case 4 => Xor16(Low16(x[4]), High16(x[1]))
    case 5 => Xor16(Low16(x[7]), High16(x[4]))
    case 6 => Xor16(Low16(x[6]), High16(x[3]))
    case 7 => Xor16(Low16(x[1]), High16(x[6]))
  }

  /** The eight output words of `keyStream`. They follow the extraction
      rule of RFC 4503, section 2.7: word 2k is the low half of x[2k] XOR
      the high half of x[2k+5]; word 2k+1 is the high half of x[2k] XOR the
      low half of x[2k+3] (indices mod 8). */
  function OutputHalves(x: Lanes): (w: seq<Half>)
    ensures |w| == 8
    ensures forall k :: 0 <= k < 4 ==> w[2 * k] == Xor16(Low16(x[2 * k]), High16(x[Wrap(2 * k + 5)]))
    ensures forall k :: 0 <= k < 4 ==> w[2 * k + 1] == Xor16(High16(x[2 * k]), Low16(x[Wrap(2 * k + 3)]))
  {
    OutputRule(x);
    seq(8, m requires 0 <= m < 8 => OutputHalf(x, m))
  }

  /** The rule of `OutputHalves`, for all four pairs of output words. */
  lemma OutputRule(x: Lanes)
    ensures forall k :: 0 <= k < 4 ==> OutputHalf(x, 2 * k) == Xor16(Low16(x[2 * k]), High16(x[Wrap(2 * k + 5)]))
    ensures forall k :: 0 <= k < 4 ==> OutputHalf(x, 2 * k + 1) == Xor16(High16(x[2 * k]), Low16(x[Wrap(2 * k + 3)]))
  {
    forall k | 0 <= k < 4 {
      OutputHalvesRule(x, k);
    }
  }

  /** Each 16-bit word written as two bytes, low byte first; reading the
      bytes back pairwise gives the words again. */
  function LittleEndianBytes(w: seq<Half>): (s: seq<Byte>)
    ensures |s| == 2 * |w|
    ensures forall m :: 0 <= m < |w| ==> OutputWord(s, m) == w[m]
  {
    seq(2 * |w|, i requires 0 <= i < 2 * |w| => if i % 2 == 0 then LowByte(w[i / 2]) else HighByte(w[i / 2]))
  }

  /** `keyStream`: exactly one `nextState`, then 16 bytes derived from the
      new state words. Nothing but the working state moves. */
  function KeyStream(r: Engine): (blk: Block)
    ensures blk.engine == NextState(r)
    ensures |blk.bytes| == 16
    ensures blk.engine.masterX == r.masterX && blk.engine.masterC == r.masterC
    ensures blk.engine.masterB == r.masterB && blk.engine.keySetupCalled == r.keySetupCalled
  {
    var n := NextState(r);
    Block(n, LittleEndianBytes(OutputHalves(n.x)))
  }

  /** The bytes of a block follow the extraction rule of RFC 4503, section
      2.7: output word 2k is the low half of x[2k] XOR the high half of
      x[2k+5]; output word 2k+1 is the high half of x[2k] XOR the low half
      of x[2k+3] (indices mod 8). */
  lemma KeyStreamRule(r: Engine)
    ensures var blk := KeyStream(r);
      forall k :: 0 <= k < 4 ==>
        OutputWord(blk.bytes, 2 * k) == Xor16(Low16(blk.engine.x[2 * k]), High16(blk.engine.x[Wrap(2 * k + 5)]))
    ensures var blk := KeyStream(r);
      forall k :: 0 <= k < 4 ==>
        OutputWord(blk.bytes, 2 * k + 1) == Xor16(High16(blk.engine.x[2 * k]), Low16(blk.engine.x[Wrap(2 * k + 3)]))
  {
  }

  /** Words 2k and 2k+1 of `OutputHalves`, one pair at a time. The odd
      words are written with the low half first, so XOR's symmetry brings
      them to the rule's shape. */
  lemma OutputHalvesRule(x: Lanes, k: nat)
    requires k < 4
    ensures OutputHalf(x, 2 * k) == Xor16(Low16(x[2 * k]), High16(x[Wrap(2 * k + 5)]))
    ensures OutputHalf(x, 2 * k + 1) == Xor16(High16(x[2 * k]), Low16(x[Wrap(2 * k + 3)]))
  {
    match k
    case 0 => Xor16Commutes(Low16(x[3]), High16(x[0]));
    case 1 => Xor16Commutes(Low16(x[5]), High16(x[2]));
    case 2 => Xor16Commutes(Low16(x[7]), High16(x[4]));
    case 3 => Xor16Commutes(Low16(x[1]), High16(x[6]));
  }
}
