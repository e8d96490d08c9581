/** The 64-bit shift register (nopebts/CommonLibs/BitVector.h) and the bit vector operations
    that drive it or convert between bits, words and packed bytes
    (nopebts/CommonLibs/BitVector.cpp). */
module BitVectors {
  import opened Collections
  import opened Polynomials
  import opened Words
  import opened Crc

  /** The n low bits of a word, highest first */
  ghost function View(w: Word, n: nat): (v: Bits)
    requires n <= 64
    ensures |v| == n && forall k :: 0 <= k < n ==> v[n - 1 - k] == w[k]
  {
    seq(n, i requires 0 <= i < n => w[n - 1 - i])
  }

  lemma ViewOfShift(w: Word, b: bool, n: nat)
    requires 1 <= n <= 64
    ensures View(Exclusive(ShiftLeft(w), BitWord(b)), n) == (View(w, n) + [b])[1..]
  {
  }

  lemma ViewOfReduction(w: Word, coeff: Word, t: Bits, n: nat)
    requires 1 <= n < 64 && |t| == n + 1 && View(w, n) == t[1..]
    ensures View(Exclusive(w, coeff), n) == Xor(t, [true] + View(coeff, n))[1..]
  {
  }

  /** Shift-register generator. The register is wider than the polynomial: the bits of mState
      and mCoeff at mLen and above are never cleared, and nothing below depends on them. */
  class Generator {
    const mCoeff: Word
    const mLen: nat
    var mState: Word

    ghost predicate Valid() {
      1 <= mLen < 64
    }

    constructor (wCoeff: Word, wLen: nat)
      requires 1 <= wLen < 64
      ensures Valid() && mCoeff == wCoeff && mLen == wLen
      ensures Register() == Zeros(mLen)
    {
      mCoeff := wCoeff;
      mLen := wLen;
      mState := BitWord(false);
    }

    /** x^mLen plus the low coefficients, whatever mCoeff holds above them */
    ghost function Polynomial(): (g: Bits)
      requires Valid()
      ensures IsGenerator(g) && |g| == mLen + 1
      ensures g[0] && forall k :: 0 <= k < mLen ==> g[mLen - k] == mCoeff[k]
    {
      [true] + View(mCoeff, mLen)
    }

    ghost function Register(): (s: Bits)
      requires Valid()
      reads this
      ensures |s| == mLen
    {
      View(mState, mLen)
    }

    method Clear()
      requires Valid()
      modifies this
      ensures Register() == Zeros(mLen)
    {
      mState := BitWord(false);
    }

    function State(): (w: Word)
      requires Valid()
      reads this
      ensures View(w, mLen) == Register()
      ensures forall i :: mLen <= i < 64 ==> !w[i]
    {
      Low(mLen, mState)
    }

    method SyndromeShift(inBit: Octet)
      requires Valid()
      modifies this
      ensures Register() == SyndromeStep(Polynomial(), old(Register()), inBit[0])
    {
      var fb := mState[mLen - 1];
      ghost var t := Register() + [inBit[0]];
      ViewOfShift(mState, inBit[0], mLen);
      mState := Exclusive(ShiftLeft(mState), BitWord(inBit[0]));
      if fb {
        ViewOfReduction(mState, mCoeff, t, mLen);
        mState := Exclusive(mState, mCoeff);
      }
    }

    method EncoderShift(inBit: Octet)
      requires Valid()
      modifies this
      ensures Register() == EncoderStep(Polynomial(), old(Register()), inBit[0])
    {
      var fb := mState[mLen - 1] != inBit[0];
      ghost var t := Register() + [false];
      mState := ShiftLeft(mState);
      if fb {
        ViewOfReduction(mState, mCoeff, t, mLen);
        mState := Exclusive(mState, mCoeff);
      }
    }
  }

  /** The bits a run of cells stands for: only the low bit of a cell is ever looked at. */
  ghost function Values(cells: seq<Octet>): (v: Bits)
    ensures |v| == |cells| && forall k :: 0 <= k < |cells| ==> v[k] == cells[k][0]
  {
    seq(|cells|, i requires 0 <= i < |cells| => cells[i][0])
  }

  class BitVector {
    const mStart: array<Octet>

    constructor (cells: array<Octet>)
      ensures mStart == cells
    {
      mStart := cells;
    }

    ghost function Bits(): (v: Bits)
      reads mStart
      ensures |v| == mStart.Length
    {
      Values(mStart[..])
    }

    method Syndrome(gen: Generator) returns (word: Word)
      requires gen.Valid()
      modifies gen
      ensures View(word, gen.mLen) == SyndromeOf(gen.Polynomial(), Zeros(gen.mLen), Bits())
      ensures forall i :: gen.mLen <= i < 64 ==> !word[i]
    {
      gen.Clear();
      var dp := 0;
      while dp < mStart.Length
        invariant dp <= mStart.Length
        invariant gen.Register() == SyndromeOf(gen.Polynomial(), Zeros(gen.mLen), Bits()[..dp])
      {
        gen.SyndromeShift(mStart[dp]);
        dp := dp + 1;
        assert Bits()[..dp][..dp - 1] == Bits()[..dp - 1];
      }
      assert Bits()[..dp] == Bits();
      word := gen.State();
    }

    method Parity(gen: Generator) returns (word: Word)
      requires gen.Valid()
      modifies gen
      ensures View(word, gen.mLen) == ParityOf(gen.Polynomial(), Zeros(gen.mLen), Bits())
      ensures forall i :: gen.mLen <= i < 64 ==> !word[i]
    {
      gen.Clear();
      var dp := 0;
      while dp < mStart.Length
        invariant dp <= mStart.Length
        invariant gen.Register() == ParityOf(gen.Polynomial(), Zeros(gen.mLen), Bits()[..dp])
      {
        gen.EncoderShift(mStart[dp]);
        dp := dp + 1;
        assert Bits()[..dp][..dp - 1] == Bits()[..dp - 1];
      }
      assert Bits()[..dp] == Bits();
      word := gen.State();
    }

    /** Reads length cells, the first one ending up highest; a field wider than the word keeps
        its last 64 bits. */
    method PeekField(readIndex: nat, length: nat) returns (accum: Word)
      requires readIndex + length <= mStart.Length
      ensures forall k :: 0 <= k < 64 ==> accum[k] == (k < length && Bits()[readIndex + length - 1 - k])
    {
      accum := BitWord(false);
      var dp := readIndex;
      for i := 0 to length
        invariant dp == readIndex + i
        invariant forall k :: 0 <= k < 64 ==> accum[k] == (k < i && mStart[readIndex + i - 1 - k][0])
      {
        accum := Exclusive(ShiftLeft(accum), BitWord(mStart[dp][0]));
        dp := dp + 1;
      }
    }

    method PeekFieldReversed(readIndex: nat, length: nat) returns (accum: Word)
      requires readIndex + length <= mStart.Length
      ensures forall k :: 0 <= k < 64 ==> accum[k] == (k < length && Bits()[readIndex + k])
    {
      accum := BitWord(false);
      var dp := readIndex + length;
      for i := length downto 0
        invariant dp == readIndex + i
        invariant forall k :: 0 <= k < 64 ==> accum[k] == (i + k < length && mStart[dp + k][0])
      {
        dp := dp - 1;
        accum := Exclusive(ShiftLeft(accum), BitWord(mStart[dp][0]));
      }
    }

    method FillField(writeIndex: nat, value: Word, length: nat)
      requires writeIndex + length <= mStart.Length
      modifies mStart
      ensures forall k :: 0 <= k < mStart.Length ==>
        mStart[k] == if writeIndex <= k < writeIndex + length
                     then BitOctet(BitAt(value, writeIndex + length - 1 - k)) else old(mStart[k])
      ensures forall k :: writeIndex <= k < writeIndex + length ==>
        var i := writeIndex + length - 1 - k; mStart[k][0] == (i < 64 && value[i])
      ensures forall k, i :: writeIndex <= k < writeIndex + length && 1 <= i < 8 ==> !mStart[k][i]
    {
      hide ShiftRight, BitOctet;
      if length != 0 {
        var value := value;
        ghost var original := value;
        var dp := writeIndex + length;
        while dp > writeIndex
          invariant writeIndex <= dp <= writeIndex + length
          invariant forall k :: 0 <= k < 64 ==> value[k] == BitAt(original, writeIndex + length - dp + k)
          invariant forall k :: 0 <= k < mStart.Length ==>
            mStart[k] == if dp <= k < writeIndex + length
                         then BitOctet(BitAt(original, writeIndex + length - 1 - k)) else old(mStart[k])
        {
          dp := dp - 1;
          mStart[dp] := BitOctet(value[0]);
          value := ShiftRight(value);
        }
      }
    }

    method FillFieldReversed(writeIndex: nat, value: Word, length: nat)
      requires writeIndex + length <= mStart.Length
      modifies mStart
      ensures forall k :: 0 <= k < mStart.Length ==>
        mStart[k] == if writeIndex <= k < writeIndex + length
                     then BitOctet(BitAt(value, k - writeIndex)) else old(mStart[k])
      ensures forall k :: writeIndex <= k < writeIndex + length ==>
        mStart[k][0] == (k - writeIndex < 64 && value[k - writeIndex])
      ensures forall k, i :: writeIndex <= k < writeIndex + length && 1 <= i < 8 ==> !mStart[k][i]
    {
      hide ShiftRight, BitOctet;
      if length != 0 {
        var value := value;
        ghost var original := value;
        var dp := writeIndex;
        while dp < writeIndex + length
          invariant writeIndex <= dp <= writeIndex + length
          invariant forall k :: 0 <= k < 64 ==> value[k] == BitAt(original, dp - writeIndex + k)
          invariant forall k :: 0 <= k < mStart.Length ==>
            mStart[k] == if writeIndex <= k < dp
                         then BitOctet(BitAt(original, k - writeIndex)) else old(mStart[k])
        {
          mStart[dp] := BitOctet(value[0]);
          dp := dp + 1;
          value := ShiftRight(value);
        }
      }
    }

    method Invert()
      modifies mStart
      ensures Bits() == Inverted(old(Bits()))
      ensures forall k, i :: 0 <= k < mStart.Length && 0 <= i < 8 ==> mStart[k][i] == !old(mStart[k])[i]
    {
      for i := 0 to mStart.Length
        invariant forall k :: 0 <= k < mStart.Length ==>
          mStart[k] == if k < i then ComplementOctet(old(mStart[k])) else old(mStart[k])
      {
        mStart[i] := ComplementOctet(mStart[i]);
      }
    }

    /** Packs highest bit first; the last byte is padded with zeros below. */
    method Pack(targ: array<Octet>)
      requires targ != mStart && 8 * targ.Length >= mStart.Length
      modifies targ
      ensures targ[..] == Packed(Bits()) + old(targ[(mStart.Length + 7) / 8..])
      ensures forall b, i :: 0 <= b < (mStart.Length + 7) / 8 && 0 <= i < 8 ==>
        targ[b][i] == (8 * b + 7 - i < mStart.Length && mStart[8 * b + 7 - i][0])
    {
      var bytes := mStart.Length / 8;
      for i := 0 to bytes
        invariant forall b :: 0 <= b < i ==> targ[b] == PackedByte(Bits(), b)
        invariant forall k :: i <= k < targ.Length ==> targ[k] == old(targ[k])
      {
        var field := PeekField(i * 8, 8);
        targ[i] := field[..8];
        assert targ[i] == PackedByte(Bits(), i);
      }
      var whole := bytes * 8;
      var rem := mStart.Length - whole;
      if rem == 0 {
        return;
      }
      var field := PeekField(whole, rem);
      targ[bytes] := ShiftLeftBy(field, 8 - rem)[..8];
      assert targ[bytes] == PackedByte(Bits(), bytes);
    }

    method Unpack(src: array<Octet>)
      requires src != mStart && 8 * src.Length >= mStart.Length
      modifies mStart
      ensures Bits() == Unpacked(src[..], mStart.Length)
      ensures forall k :: 0 <= k < mStart.Length ==> mStart[k][0] == src[k / 8][7 - k % 8]
      ensures forall k, i :: 0 <= k < mStart.Length && 1 <= i < 8 ==> !mStart[k][i]
    {
      hide BitOctet, Widen, ShiftRightBy, UnpackedBit;
      var bytes := mStart.Length / 8;
      for i := 0 to bytes
        invariant forall k :: 0 <= k < 8 * i ==> mStart[k] == BitOctet(UnpackedBit(src[..], k))
      {
        FillField(i * 8, Widen(src[i]), 8);
        forall k | 8 * i <= k < 8 * i + 8
          ensures mStart[k] == BitOctet(UnpackedBit(src[..], k))
        {
          UnpackedByte(src[..], i, k);
        }
      }
      var whole := bytes * 8;
      var rem := mStart.Length - whole;
      if rem > 0 {
        FillField(whole, ShiftRightBy(Widen(src[bytes]), 8 - rem), rem);
        forall k | whole <= k < mStart.Length
          ensures mStart[k] == BitOctet(UnpackedBit(src[..], k))
        {
          UnpackedByte(src[..], bytes, k);
        }
      }
    }
  }

  // ---------------------------------------------------------------- packing

  /** Byte b of the packed form: bit 8b of the vector is its highest bit. */
  ghost function PackedByte(bits: Bits, b: nat): Octet {
    seq(8, k requires 0 <= k < 8 => 8 * b + 7 - k < |bits| && bits[8 * b + 7 - k])
  }

  ghost function Packed(bits: Bits): (bytes: seq<Octet>)
    ensures |bytes| == (|bits| + 7) / 8
    ensures forall b, i :: 0 <= b < |bytes| && 0 <= i < 8 ==>
      bytes[b][i] == (8 * b + 7 - i < |bits| && bits[8 * b + 7 - i])
  {
    seq((|bits| + 7) / 8, b requires 0 <= b < (|bits| + 7) / 8 => PackedByte(bits, b))
  }

  ghost function UnpackedBit(bytes: seq<Octet>, k: nat): bool
    requires k < 8 * |bytes|
  {
    bytes[k / 8][7 - k % 8]
  }

  ghost function Unpacked(bytes: seq<Octet>, n: nat): (bits: Bits)
    requires n <= 8 * |bytes|
    ensures |bits| == n && forall k :: 0 <= k < n ==> bits[k] == bytes[k / 8][7 - k % 8]
  {
    seq(n, k requires 0 <= k < n => UnpackedBit(bytes, k))
  }

  lemma UnpackedByte(bytes: seq<Octet>, b: nat, k: nat)
    requires b < |bytes| && 8 * b <= k < 8 * b + 8
    ensures UnpackedBit(bytes, k) == bytes[b][7 - (k - 8 * b)]
  {
    assert k / 8 == b && k % 8 == k - 8 * b;
  }

  /** Unpacking what was packed gives back every bit, whatever the length. */
  lemma PackRoundTrip(bits: Bits)
    ensures Unpacked(Packed(bits), |bits|) == bits
  {
    var bytes := Packed(bits);
    forall k | 0 <= k < |bits|
      ensures UnpackedBit(bytes, k) == bits[k]
    {
      var b, p := k / 8, k % 8;
      assert bytes[b] == PackedByte(bits, b) && 8 * b + p == k;
    }
  }

  /** Bit k of a word that has shifted in zeros from above */
  ghost function BitAt(w: Word, k: nat): bool {
    k < 64 && w[k]
  }

  /** Parity generator and checker. */
  class ParityChecker {
    const generator: Generator

    constructor (gen: Generator)
      ensures generator == gen
    {
      generator := gen;
    }

    /** Writes the parity of data, inverted by default, highest bit first. */
    method WriteParityWord(data: BitVector, parityTarget: BitVector, invert: bool := true)
      requires generator.Valid() && generator.mLen <= parityTarget.mStart.Length
      modifies generator, parityTarget.mStart
      ensures var e := ParityOf(generator.Polynomial(), Zeros(generator.mLen), old(data.Bits()));
        parityTarget.Bits()[..generator.mLen] == if invert then Inverted(e) else e
      ensures parityTarget.mStart[generator.mLen..] == old(parityTarget.mStart[generator.mLen..])
    {
      hide ParityOf, BitOctet;
      var pWord := data.Parity(generator);
      if invert {
        pWord := Complement(pWord);
      }
      parityTarget.FillField(0, pWord, generator.mLen);
      assert parityTarget.Bits()[..generator.mLen] == View(pWord, generator.mLen);
    }

    method Syndrome(receivedCodeword: BitVector) returns (word: Word)
      requires generator.Valid()
      modifies generator
      ensures View(word, generator.mLen)
           == SyndromeOf(generator.Polynomial(), Zeros(generator.mLen), receivedCodeword.Bits())
      ensures forall i :: generator.mLen <= i < 64 ==> !word[i]
    {
      word := receivedCodeword.Syndrome(generator);
    }
  }
}
