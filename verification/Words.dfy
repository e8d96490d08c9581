/** Machine words as their bits: bit k of a word has weight 2^k, so index k holds it. */
module Words {

  /** uint64_t */
  type Word = w: seq<bool> | |w| == 64 witness seq(64, _ => false)

  /** char or unsigned char */
  type Octet = o: seq<bool> | |o| == 8 witness seq(8, _ => false)

  function Low(bits: nat, w: Word): (r: Word)
    requires bits <= 64
    ensures forall k :: 0 <= k < 64 ==> r[k] == (k < bits && w[k])
  {
    w[..bits] + seq(64 - bits, _ => false)
  }

  function ShiftLeft(w: Word): (r: Word)
    ensures forall k :: 0 <= k < 64 ==> r[k] == (k > 0 && w[k - 1])
  {
    [false] + w[..63]
  }

  function ShiftRight(w: Word): (r: Word)
    ensures forall k :: 0 <= k < 64 ==> r[k] == (k < 63 && w[k + 1])
  {
    w[1..] + [false]
  }

  function ShiftLeftBy(w: Word, n: nat): (r: Word)
    requires n <= 64
    ensures forall k :: 0 <= k < 64 ==> r[k] == (k >= n && w[k - n])
  {
    seq(n, _ => false) + w[..64 - n]
  }

  function ShiftRightBy(w: Word, n: nat): (r: Word)
    requires n <= 64
    ensures forall k :: 0 <= k < 64 ==> r[k] == (k + n < 64 && w[k + n])
  {
    w[n..] + seq(n, _ => false)
  }

  function Exclusive(a: Word, b: Word): (r: Word)
    ensures forall k :: 0 <= k < 64 ==> r[k] == (a[k] != b[k])
  {
    seq(64, i requires 0 <= i < 64 => a[i] != b[i])
  }

  function Complement(w: Word): (r: Word)
    ensures forall k :: 0 <= k < 64 ==> r[k] == !w[k]
  {
    seq(64, i requires 0 <= i < 64 => !w[i])
  }

  /** A word or an octet whose only bit is the lowest */
  function BitWord(b: bool): (r: Word)
    ensures forall k :: 0 <= k < 64 ==> r[k] == (k == 0 && b)
  {
    [b] + seq(63, _ => false)
  }

  function BitOctet(b: bool): (r: Octet)
    ensures r[0] == b && forall k :: 1 <= k < 8 ==> !r[k]
  {
    [b] + seq(7, _ => false)
  }

  function Widen(o: Octet): (r: Word)
    ensures forall k :: 0 <= k < 64 ==> r[k] == (k < 8 && o[k])
  {
    o + seq(56, _ => false)
  }

  function ComplementOctet(o: Octet): (r: Octet)
    ensures forall k :: 0 <= k < 8 ==> r[k] == !o[k]
  {
    seq(8, i requires 0 <= i < 8 => !o[i])
  }
}
