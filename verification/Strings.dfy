/** Byte-wise comparison of C strings */
module Strings {

  /** strcmp: the sign of the first difference, a proper prefix being smaller */
  function StrCmp(a: string, b: string): (c: int) {
    if |a| == 0 && |b| == 0 then 0
    else if |a| == 0 then -1
    else if |b| == 0 then 1
    else if a[0] < b[0] then -1
    else if a[0] > b[0] then 1
    else StrCmp(a[1..], b[1..])
  }

  lemma {:induction false} StrCmpIsAntisymmetric(a: string, b: string)
    ensures StrCmp(a, b) == -StrCmp(b, a)
    ensures StrCmp(a, b) == 0 <==> a == b
  {
    if |a| > 0 && |b| > 0 && a[0] == b[0] {
      StrCmpIsAntisymmetric(a[1..], b[1..]);
      assert a == [a[0]] + a[1..] && b == [b[0]] + b[1..];
    }
  }

  lemma {:induction false} StrCmpIsTransitive(a: string, b: string, c: string)
    requires StrCmp(a, b) <= 0 && StrCmp(b, c) <= 0
    ensures StrCmp(a, c) <= 0
    ensures StrCmp(a, b) < 0 || StrCmp(b, c) < 0 ==> StrCmp(a, c) < 0
  {
    if |a| > 0 && |b| > 0 && |c| > 0 && a[0] == b[0] == c[0] {
      StrCmpIsTransitive(a[1..], b[1..], c[1..]);
    }
  }

  /** a is a proper prefix of b or has the smaller character at the first difference. */
  ghost predicate Before(a: string, b: string) {
    exists k :: FirstDiffers(a, b, k)
  }

  ghost predicate FirstDiffers(a: string, b: string, k: nat) {
    && k <= |a| && k < |b| && a[..k] == b[..k]
    && (k < |a| ==> a[k] < b[k])
  }

  lemma {:induction false} StrCmpIsLexicographic(a: string, b: string)
    ensures StrCmp(a, b) < 0 <==> Before(a, b)
  {
    if |a| > 0 && |b| > 0 && a[0] == b[0] {
      StrCmpIsLexicographic(a[1..], b[1..]);
      if Before(a, b) {
        var k: nat :| FirstDiffers(a, b, k);
        assert k > 0 && a[1..][..k - 1] == a[..k][1..] == b[..k][1..] == b[1..][..k - 1];
        assert FirstDiffers(a[1..], b[1..], k - 1);
      }
      if Before(a[1..], b[1..]) {
        var k: nat :| FirstDiffers(a[1..], b[1..], k);
        assert a[..k + 1] == [a[0]] + a[1..][..k] && b[..k + 1] == [b[0]] + b[1..][..k];
        assert FirstDiffers(a, b, k + 1);
      }
    } else if StrCmp(a, b) < 0 {
      assert FirstDiffers(a, b, 0);
    }
  }
}
