/** Binary data as base64 and hex text (nopebts/CommonLibs/Utils.cpp). Text is one char a byte;
    the error message is an in-out parameter, as in the original. */
module Codecs {
  import opened Collections

  predicate AreBytes(data: seq<nat>) {
    forall i :: 0 <= i < |data| ==> data[i] < 256
  }

  /** The texts an errorMessage can hold; the empty one says that all went well. */
  datatype Message =
    | Empty
    | DataAfterTerminator
    | InvalidCharacters
    | UnexpectedCharacter
    | OddLength
    | UnexpectedEncoding(name: string)

  predicate IsSpace(c: char): (r: bool)
    ensures r <==> c as int == 32 || 9 <= c as int <= 13
  {
    c == ' ' || '\t' <= c <= '\r'
  }

  /** The text without its white space */
  function Compact(text: string): string {
    if text == "" then ""
    else if IsSpace(text[0]) then Compact(text[1..])
    else [text[0]] + Compact(text[1..])
  }

  // ---------------------------------------------------------------- base64

  /** The reverse map: 255 marks a character outside the alphabet. */
  function Value(c: char): nat {
    if 'A' <= c <= 'Z' then (c - 'A') as nat
    else if 'a' <= c <= 'z' then (c - 'a') as nat + 26
    else if '0' <= c <= '9' then (c - '0') as nat + 52
    else if c == '+' then 62
    else if c == '/' then 63
    else 255
  }

  /** The alphabet of RFC 4648, section 4 */
  function Digit(d: nat): (c: char)
    requires d < 64
    ensures Value(c) == d && !IsSpace(c) && c != '='
  {
    if d < 26 then 'A' + d as char
    else if d < 52 then 'a' + (d - 26) as char
    else if d < 62 then '0' + (d - 52) as char
    else if d == 62 then '+'
    else '/'
  }

  /** The literal of the original, in three parts */
  const ALPHABET: string := "ABCDEFGHIJKLMNOPQRSTUVWXYZ" + "abcdefghijklmnopqrstuvwxyz" + "0123456789+/"

  lemma DigitsInOrder(d: nat)
    requires d < 64
    ensures ALPHABET[d] == Digit(d)
  {
  }

  lemma OneCharacterEach(d: nat, c: char)
    requires d < 64 && Value(c) == d
    ensures c == Digit(d)
  {
  }

  /** The digits are those of the literal, in its order, and no other character has a value. */
  lemma AlphabetInOrder(d: nat, c: char)
    requires d < 64
    ensures ALPHABET[d] == Digit(d) && (Value(c) == d <==> c == ALPHABET[d])
  {
    DigitsInOrder(d);
    if Value(c) == d {
      OneCharacterEach(d, c);
    }
    hide Value, Digit;
  }

  /** The digits before the first '=', other characters passed over */
  function Digits(text: string): seq<nat> {
    if text == "" || text[0] == '=' then []
    else if Value(text[0]) < 64 then [Value(text[0])] + Digits(text[1..])
    else Digits(text[1..])
  }

  predicate IsPadding(c: char) {
    IsSpace(c) || c == '='
  }

  predicate OnlyPadding(text: string) {
    forall i :: 0 <= i < |text| ==> IsPadding(text[i])
  }

  /** The error message left by the text, message being the one before */
  function Complaint(text: string, message: Message): Message {
    if text == "" then message
    else if text[0] == '=' then (if OnlyPadding(text[1..]) then message else DataAfterTerminator)
    else if IsSpace(text[0]) || Value(text[0]) < 64 then Complaint(text[1..], message)
    else Complaint(text[1..], InvalidCharacters)
  }

  /** 0x3f & (a >> shift) */
  function Six(a: nat, shift: nat): (d: nat)
    ensures d < 64
  {
    a / Pow2(shift) % 64
  }

  /** 0xff & (a >> shift) */
  function Eight(a: nat, shift: nat): (b: nat)
    ensures b < 256
  {
    a / Pow2(shift) % 256
  }

  /** d << (3 - j) * 6 */
  function Shifted(d: nat, j: nat): nat
    requires j < 4
  {
    d * Pow2((3 - j) * 6)
  }

  /** Up to four digits as one number of 24 bits; the shifted digits do not overlap. */
  function Accum(g: seq<nat>): nat
    requires |g| <= 4
  {
    if g == [] then 0 else Accum(g[..|g| - 1]) + Shifted(g[|g| - 1], |g| - 1)
  }

  function GroupBytes(a: nat, j: nat): seq<nat> {
    (if j >= 1 then [Eight(a, 16)] else []) + (if j >= 3 then [Eight(a, 8)] else []) +
    (if j == 4 then [Eight(a, 0)] else [])
  }

  function BytesOf(d: seq<nat>): seq<nat> {
    if |d| <= 4 then GroupBytes(Accum(d), |d|)
    else GroupBytes(Accum(d[..4]), 4) + BytesOf(d[4..])
  }

  lemma AccumStep(g: seq<nat>, d: nat)
    requires |g| < 4
    ensures Accum(g + [d]) == Accum(g) + Shifted(d, |g|)
  {
    assert (g + [d])[..|g|] == g;
  }

  lemma BytesOfStep(g: seq<nat>, rest: seq<nat>)
    requires |g| <= 4 && (|g| < 4 ==> rest == [])
    ensures BytesOf(g + rest) == GroupBytes(Accum(g), |g|) + BytesOf(rest)
  {
    if rest == [] {
      assert g + rest == g;
    } else {
      assert (g + rest)[..4] == g && (g + rest)[4..] == rest;
    }
  }

  /** Four characters a three bytes, '=' for those that carry nothing */
  function Encoded(data: seq<nat>): string {
    if |data| == 0 then ""
    else if |data| == 1 then Quad(Triple(data), true, true)
    else if |data| == 2 then Quad(Triple(data), false, true)
    else Quad(Triple(data), false, false) + Encoded(data[3..])
  }

  function Triple(data: seq<nat>): nat
    requires |data| > 0
  {
    (data[0] * 256 + if |data| > 1 then data[1] else 0) * 256 + if |data| > 2 then data[2] else 0
  }

  function Quad(a: nat, padThird: bool, padLast: bool): string {
    [Digit(Six(a, 18)), Digit(Six(a, 12)), if padThird then '=' else Digit(Six(a, 6)),
      if padLast then '=' else Digit(Six(a, 0))]
  }

  /** Three bytes in one number, those past the end as 0 */
  method GatherBytes(data: seq<nat>, i: nat) returns (accum: nat)
    requires i < |data|
    ensures accum == Triple(data[i..])
  {
    accum := data[i];
    accum := accum * 256;
    if i + 1 < |data| {
      accum := accum + data[i + 1];
    }
    accum := accum * 256;
    if i + 2 < |data| {
      accum := accum + data[i + 2];
    }
  }

  method PutQuad(was: string, accum: nat, padThird: bool, padLast: bool) returns (result: string)
    ensures result == was + Quad(accum, padThird, padLast)
  {
    result := was + [Digit(Six(accum, 18))];
    result := result + [Digit(Six(accum, 12))];
    result := result + [if padThird then '=' else Digit(Six(accum, 6))];
    result := result + [if padLast then '=' else Digit(Six(accum, 0))];
  }

  method Base64Encode(data: seq<nat>) returns (result: string)
    ensures result == Encoded(data)
  {
    assert Encoded([]) == "";
    hide Encoded, Digit, Six, Triple, Value, IsSpace, Quad;
    result := "";
    var i := 0;
    while i < |data|
      invariant Encoded(data) == result + if i <= |data| then Encoded(data[i..]) else ""
    {
      var accum := GatherBytes(data, i);
      EncodedStep(data, i);
      Regroup(result, Quad(accum, i + 1 >= |data|, i + 2 >= |data|),
        if i + 3 <= |data| then Encoded(data[i + 3..]) else "");
      result := PutQuad(result, accum, i + 1 >= |data|, i + 2 >= |data|);
      i := i + 3;
    }
  }

  lemma EncodedStep(data: seq<nat>, i: nat)
    requires i < |data|
    ensures Encoded(data[i..]) == Quad(Triple(data[i..]), i + 1 >= |data|, i + 2 >= |data|)
      + (if i + 3 <= |data| then Encoded(data[i + 3..]) else "")
  {
    hide Triple, Quad;
    if i + 3 <= |data| {
      assert data[i..][3..] == data[i + 3..];
    }
  }

  method PutBytes(was: seq<nat>, accum: nat, j: nat) returns (result: seq<nat>)
    ensures result == was + GroupBytes(accum, j)
  {
    result := was;
    if j >= 1 {
      result := result + [Eight(accum, 16)];
    }
    if j >= 3 {
      result := result + [Eight(accum, 8)];
    }
    if j == 4 {
      result := result + [Eight(accum, 0)];
    }
  }

  method Base64Decode(text: string, message: Message) returns (result: seq<nat>, error: Message)
    ensures result == BytesOf(Digits(text)) && error == Complaint(text, message)
  {
    assert BytesOf([]) == [] && Digits("") == [] && text[0..] == text;
    assert forall e: Message :: Complaint("", e) == e;
    hide GroupBytes, Value, Accum, Pow2, Eight, BytesOf, Digits, Complaint;
    result, error := [], message;
    var i := 0;
    while i < |text|
      invariant i <= |text|
      invariant BytesOf(Digits(text)) == result + BytesOf(Digits(text[i..]))
      invariant Complaint(text, message) == Complaint(text[i..], error)
    {
      var accum, j;
      ghost var g;
      i, accum, j, error, g := GatherDigits(text, i, error);
      BytesOfStep(g, Digits(text[i..]));
      Regroup(result, GroupBytes(accum, j), BytesOf(Digits(text[i..])));
      result := PutBytes(result, accum, j);
    }
    assert text[i..] == "";
  }

  lemma TextStep(text: string, i: nat, message: Message)
    requires i < |text|
    ensures Digits(text[i..]) ==
      if text[i] == '=' then []
      else if Value(text[i]) < 64 then [Value(text[i])] + Digits(text[i + 1..])
      else Digits(text[i + 1..])
    ensures IsSpace(text[i]) ==> text[i] != '=' && Value(text[i]) >= 64
    ensures Complaint(text[i..], message) ==
      if text[i] == '=' then (if OnlyPadding(text[i + 1..]) then message else DataAfterTerminator)
      else if IsSpace(text[i]) || Value(text[i]) < 64 then Complaint(text[i + 1..], message)
      else Complaint(text[i + 1..], InvalidCharacters)
    ensures Digits("") == [] && forall e: Message :: Complaint("", e) == e
  {
    hide OnlyPadding;
    assert text[i..][0] == text[i] && text[i..][1..] == text[i + 1..];
  }

  /** Up to four digits: fewer only when the text ends */
  method GatherDigits(text: string, from: nat, message: Message)
    returns (i: nat, accum: nat, j: nat, error: Message, ghost g: seq<nat>)
    requires from < |text|
    ensures from < i <= |text| && j == |g| <= 4 && accum == Accum(g) && (j < 4 ==> i == |text|)
    ensures Digits(text[from..]) == g + Digits(text[i..])
    ensures Complaint(text[from..], message) == Complaint(text[i..], error)
  {
    assert Accum([]) == 0;
    hide Value, Accum, Shifted, Pow2, Digits, Complaint, OnlyPadding, IsSpace;
    i, accum, j, error, g := from, 0, 0, message, [];
    while j < 4 && i < |text|
      invariant from <= i <= |text| && j == |g| <= 4 && accum == Accum(g) && (i == from ==> j == 0)
      invariant Digits(text[from..]) == g + Digits(text[i..])
      invariant Complaint(text[from..], message) == Complaint(text[i..], error)
      decreases |text| - i
    {
      var c := text[i];
      i := i + 1;
      TextStep(text, i - 1, error);
      if IsSpace(c) {
        continue;
      }
      if c == '=' {
        i, error := ScanPadding(text, i, error);
        break;
      }
      var decoded := Value(c);
      if decoded >= 64 {
        error := InvalidCharacters;
        continue;
      }
      accum := accum + Shifted(decoded, j);
      AccumStep(g, decoded);
      Regroup(g, [decoded], Digits(text[i..]));
      g := g + [decoded];
      j := j + 1;
    }
  }

  /** What follows a '=' may only be more of it and white space. */
  method ScanPadding(text: string, from: nat, message: Message) returns (i: nat, error: Message)
    requires from <= |text|
    ensures i == |text| && error == if OnlyPadding(text[from..]) then message else DataAfterTerminator
  {
    i, error := from, message;
    ghost var clean := true;
    while i < |text|
      invariant from <= i <= |text|
      invariant clean <==> forall k :: from <= k < i ==> IsPadding(text[k])
      invariant error == if clean then message else DataAfterTerminator
    {
      if !IsPadding(text[i]) {
        error, clean := DataAfterTerminator, false;
      }
      i := i + 1;
    }
    if !clean {
      var k :| from <= k < i && !IsPadding(text[k]);
      assert text[from..][k - from] == text[k];
    }
  }

  // ---------------------------------------------------------------- what is reported

  /** Something other than '=' and white space follows a '='. */
  ghost predicate DataFollows(text: string) {
    exists p, k :: 0 <= p < k < |text| && text[p] == '=' && text[k] != '=' && !IsSpace(text[k])
  }

  ghost predicate HasInvalid(text: string) {
    exists k :: 0 <= k < |text| && text[k] != '=' && !IsSpace(text[k]) && text[k] !in ALPHABET
  }

  lemma IsDigit(c: char)
    ensures c in ALPHABET <==> Value(c) < 64
  {
    if Value(c) < 64 {
      AlphabetInOrder(Value(c), c);
    }
    if c in ALPHABET {
      var d :| 0 <= d < |ALPHABET| && ALPHABET[d] == c;
      AlphabetInOrder(d, c);
    }
  }

  lemma ReportStep(c: char, rest: string)
    ensures DataFollows([c] + rest) <==> (c == '=' && !OnlyPadding(rest)) || DataFollows(rest)
    ensures HasInvalid([c] + rest) <==> (c != '=' && !IsSpace(c) && Value(c) >= 64) || HasInvalid(rest)
  {
    hide IsSpace, Value;
    var text := [c] + rest;
    IsDigit(c);
    assert text[0] == c;
    if DataFollows(text) {
      var p, k :| 0 <= p < k < |text| && text[p] == '=' && text[k] != '=' && !IsSpace(text[k]);
      assert text[k] == rest[k - 1] && (p > 0 ==> text[p] == rest[p - 1]);
    }
    if !OnlyPadding(rest) {
      var k :| 0 <= k < |rest| && !IsPadding(rest[k]);
      assert text[k + 1] == rest[k];
    }
    if DataFollows(rest) {
      var p, k :| 0 <= p < k < |rest| && rest[p] == '=' && rest[k] != '=' && !IsSpace(rest[k]);
      assert text[p + 1] == rest[p] && text[k + 1] == rest[k];
    }
    if HasInvalid(text) {
      var k :| 0 <= k < |text| && text[k] != '=' && !IsSpace(text[k]) && text[k] !in ALPHABET;
      assert k > 0 ==> text[k] == rest[k - 1];
    }
    if HasInvalid(rest) {
      var k :| 0 <= k < |rest| && rest[k] != '=' && !IsSpace(rest[k]) && rest[k] !in ALPHABET;
      assert text[k + 1] == rest[k];
    }
  }

  lemma NothingFollows(text: string)
    requires OnlyPadding(text)
    ensures !DataFollows(text) && !HasInvalid(text)
  {
  }

  /** Data after a '=' is reported rather than an invalid character before it; otherwise an invalid
      character anywhere is reported, and nothing else. */
  lemma {:induction false} WhatIsReported(text: string, message: Message)
    ensures Complaint(text, message) ==
      if DataFollows(text) then DataAfterTerminator else if HasInvalid(text) then InvalidCharacters else message
  {
    if text != "" {
      var c, rest := text[0], text[1..];
      assert text == [c] + rest;
      TextStep(text, 0, message);
      ReportStep(c, rest);
      hide Value, IsSpace, DataFollows, HasInvalid, OnlyPadding;
      WhatIsReported(rest, message);
      WhatIsReported(rest, InvalidCharacters);
      if OnlyPadding(rest) {
        NothingFollows(rest);
      }
    }
  }

  // ---------------------------------------------------------------- base64 round trip

  lemma {:induction false} CompactReadsTheSame(text: string, message: Message)
    ensures Digits(text) == Digits(Compact(text))
    ensures Complaint(text, message) == Complaint(Compact(text), message)
  {
    if text != "" {
      TextStep(text, 0, message);
      CompactReadsTheSame(text[1..], message);
      CompactReadsTheSame(text[1..], InvalidCharacters);
      CompactPadding(text[1..]);
    }
  }

  lemma PaddingOf(c: char, t: string)
    ensures OnlyPadding([c] + t) <==> IsPadding(c) && OnlyPadding(t)
  {
    var s := [c] + t;
    assert s[0] == c;
    if OnlyPadding(s) {
      assert forall i :: 0 <= i < |t| ==> t[i] == s[i + 1];
    }
  }

  lemma {:induction false} CompactPadding(text: string)
    ensures OnlyPadding(text) <==> OnlyPadding(Compact(text))
  {
    if text != "" {
      CompactPadding(text[1..]);
      assert text == [text[0]] + text[1..];
      PaddingOf(text[0], text[1..]);
      PaddingOf(text[0], Compact(text[1..]));
    }
  }

  lemma PowersOfTwo()
    ensures Pow2(0) == 1 && Pow2(6) == 0x40 && Pow2(8) == 0x100 && Pow2(12) == 0x1000
    ensures Pow2(16) == 0x1_0000 && Pow2(18) == 0x4_0000
  {
  }

  lemma SixtyFours(t: nat)
    ensures t / 0x1000 == t / 64 / 64 && t / 0x4_0000 == t / 0x1000 / 64
  {
  }

  lemma SixValues(t: nat)
    requires t < 0x100_0000
    ensures Six(t, 18) == t / 64 / 64 / 64 && Six(t, 12) == t / 64 / 64 % 64
    ensures Six(t, 6) == t / 64 % 64 && Six(t, 0) == t % 64
  {
    PowersOfTwo();
    hide Pow2;
    SixtyFours(t);
  }

  /** Four six-bit pieces make the number up again. */
  lemma NumberOfPieces(t: nat)
    requires t < 0x100_0000
    ensures t == ((Six(t, 18) * 64 + Six(t, 12)) * 64 + Six(t, 6)) * 64 + Six(t, 0)
  {
    SixValues(t);
    hide Six;
    var h := t / 64;
    var k := h / 64;
    assert t == 64 * h + t % 64 && h == 64 * k + h % 64 && k == 64 * (k / 64) + k % 64;
  }

  lemma PiecesMakeNumber(t: nat)
    requires t < 0x100_0000
    ensures t == Shifted(Six(t, 18), 0) + Shifted(Six(t, 12), 1) + Shifted(Six(t, 6), 2) + Shifted(Six(t, 0), 3)
  {
    NumberOfPieces(t);
    PowersOfTwo();
    hide Six, Pow2;
  }

  /** Three eight-bit pieces are the bytes. */
  lemma PiecesAreBytes(x: nat, y: nat, z: nat)
    requires x < 256 && y < 256 && z < 256
    ensures var t := (x * 256 + y) * 256 + z;
      Eight(t, 16) == x && Eight(t, 8) == y && Eight(t, 0) == z
  {
    PowersOfTwo();
    hide Pow2;
    var t := (x * 256 + y) * 256 + z;
    assert t / 256 == x * 256 + y;
    assert t / 0x1_0000 == x;
  }

  lemma PiecesPastTheEnd(x: nat, y: nat)
    ensures Six((x * 256 + y) * 256, 0) == 0 && Six(x * 256 * 256, 6) == 0
  {
    PowersOfTwo();
    hide Pow2;
    assert (x * 256 + y) * 256 == 64 * ((x * 256 + y) * 4);
    assert x * 256 * 256 == 64 * (64 * (x * 16));
  }

  lemma AccumOf(a: nat, b: nat, c: nat, d: nat)
    ensures Accum([a, b]) == Shifted(a, 0) + Shifted(b, 1)
    ensures Accum([a, b, c]) == Shifted(a, 0) + Shifted(b, 1) + Shifted(c, 2)
    ensures Accum([a, b, c, d]) == Shifted(a, 0) + Shifted(b, 1) + Shifted(c, 2) + Shifted(d, 3)
  {
    assert Accum([]) == 0;
    hide Shifted, Accum;
    AccumStep([], a);
    AccumStep([a], b);
    AccumStep([a, b], c);
    AccumStep([a, b, c], d);
    assert [] + [a] == [a] && [a] + [b] == [a, b] && [a, b] + [c] == [a, b, c] && [a, b, c] + [d] == [a, b, c, d];
  }

  /** Reading one digit */
  lemma DigitStep(d: nat, rest: string, message: Message)
    requires d < 64
    ensures Digits([Digit(d)] + rest) == [d] + Digits(rest)
    ensures Complaint([Digit(d)] + rest, message) == Complaint(rest, message)
  {
    var s := [Digit(d)] + rest;
    assert s[1..] == rest;
  }

  predicate ReadsBack(data: seq<nat>, message: Message) {
    BytesOf(Digits(Encoded(data))) == data && Complaint(Encoded(data), message) == message
  }

  lemma {:induction false} EncodedReadsBack(data: seq<nat>, message: Message)
    requires AreBytes(data)
    ensures ReadsBack(data, message)
  {
    if |data| == 0 {
    } else if |data| < 3 {
      ShortReadsBack(data, message);
    } else {
      EncodedReadsBack(data[3..], message);
      LongReadsBack(data, message);
    }
  }

  lemma ShortReadsBack(data: seq<nat>, message: Message)
    requires AreBytes(data) && 1 <= |data| <= 2
    ensures ReadsBack(data, message)
  {
    hide BytesOf, Digits, Complaint, Quad;
    if |data| == 1 {
      OneByteReadsBack(data[0], message);
      assert data == [data[0]];
    } else {
      TwoBytesReadBack(data[0], data[1], message);
      assert data == [data[0], data[1]];
    }
  }

  lemma LongReadsBack(data: seq<nat>, message: Message)
    requires AreBytes(data) && |data| >= 3 && ReadsBack(data[3..], message)
    ensures ReadsBack(data, message)
  {
    hide BytesOf, Digits, Complaint, Quad, Encoded, Digit, Value;
    var x, y, z, rest := data[0], data[1], data[2], data[3..];
    assert data == [x, y, z] + rest;
    EncodedThree(x, y, z, rest);
    ThreeBytesReadBack(x, y, z, Encoded(rest), message);
  }

  lemma BytesOfShort(g: seq<nat>)
    requires |g| <= 4
    ensures BytesOf(g) == GroupBytes(Accum(g), |g|)
  {
  }

  lemma OneByteDigits(t: nat, message: Message)
    ensures Digits(Quad(t, true, true)) == [Six(t, 18), Six(t, 12)]
    ensures Complaint(Quad(t, true, true), message) == message
  {
    var a, b := Six(t, 18), Six(t, 12);
    assert Quad(t, true, true) == [Digit(a)] + ([Digit(b)] + "==");
    hide Six, Value, Digit, Quad, Digits, Complaint;
    PaddingReadsBack(message);
    DigitStep(b, "==", message);
    DigitStep(a, [Digit(b)] + "==", message);
    assert [a] + ([b] + []) == [a, b];
  }

  lemma OneByteOf(x: nat)
    requires x < 256
    ensures var t := (x * 256 + 0) * 256 + 0; BytesOf([Six(t, 18), Six(t, 12)]) == [x]
  {
    var t := (x * 256 + 0) * 256 + 0;
    assert Shifted(0, 2) == Shifted(0, 3) == 0;
    hide Six, Eight, Shifted, Accum, BytesOf, Pow2;
    PiecesMakeNumber(t);
    PiecesAreBytes(x, 0, 0);
    PiecesPastTheEnd(x, 0);
    AccumOf(Six(t, 18), Six(t, 12), 0, 0);
    BytesOfShort([Six(t, 18), Six(t, 12)]);
  }

  lemma OneByteReadsBack(x: nat, message: Message)
    requires x < 256
    ensures var s := Quad((x * 256 + 0) * 256 + 0, true, true);
      BytesOf(Digits(s)) == [x] && Complaint(s, message) == message
      && Digits(s) == [Six((x * 256 + 0) * 256 + 0, 18), Six((x * 256 + 0) * 256 + 0, 12)]
  {
    hide Six, Digits, Quad, BytesOf, Complaint;
    OneByteDigits((x * 256 + 0) * 256 + 0, message);
    OneByteOf(x);
  }

  lemma TwoBytesReadBack(x: nat, y: nat, message: Message)
    requires x < 256 && y < 256
    ensures var s := Quad((x * 256 + y) * 256 + 0, false, true);
      BytesOf(Digits(s)) == [x, y] && Complaint(s, message) == message
      && Digits(s) ==
         [Six((x * 256 + y) * 256 + 0, 18), Six((x * 256 + y) * 256 + 0, 12), Six((x * 256 + y) * 256 + 0, 6)]
  {
    var t := (x * 256 + y) * 256 + 0;
    var a, b, c := Six(t, 18), Six(t, 12), Six(t, 6);
    PiecesMakeNumber(t);
    PiecesAreBytes(x, y, 0);
    PiecesPastTheEnd(x, y);
    AccumOf(a, b, c, 0);
    assert Shifted(0, 3) == 0;
    hide Six, Eight, Shifted, Accum, Value;
    PaddingReadsBack(message);
    DigitStep(c, "=", message);
    DigitStep(b, [Digit(c)] + "=", message);
    DigitStep(a, [Digit(b)] + ([Digit(c)] + "="), message);
    assert Quad(t, false, true) == [Digit(a)] + ([Digit(b)] + ([Digit(c)] + "="));
    assert [a] + ([b] + ([c] + [])) == [a, b, c];
  }

  lemma PaddingReadsBack(message: Message)
    ensures Digits("=") == Digits("==") == [] && Complaint("=", message) == Complaint("==", message) == message
  {
    assert "="[1..] == "" && "=="[1..] == "=";
  }

  lemma FullQuad(t: nat, rest: string, message: Message)
    ensures var s := Quad(t, false, false) + rest;
      && Digits(s) == [Six(t, 18), Six(t, 12), Six(t, 6), Six(t, 0)] + Digits(rest)
      && Complaint(s, message) == Complaint(rest, message)
  {
    hide Six, Value, Digits, Complaint;
    var a, b, c, d := Six(t, 18), Six(t, 12), Six(t, 6), Six(t, 0);
    var s3 := [Digit(d)] + rest;
    var s2 := [Digit(c)] + s3;
    var s1 := [Digit(b)] + s2;
    assert Quad(t, false, false) + rest == [Digit(a)] + s1;
    hide Digit, Quad;
    DigitStep(d, rest, message);
    DigitStep(c, s3, message);
    DigitStep(b, s2, message);
    DigitStep(a, s1, message);
    assert [a] + ([b] + ([c] + ([d] + Digits(rest)))) == [a, b, c, d] + Digits(rest);
  }

  lemma ThreeBytesReadBack(x: nat, y: nat, z: nat, rest: string, message: Message)
    requires x < 256 && y < 256 && z < 256
    ensures var s := Quad((x * 256 + y) * 256 + z, false, false) + rest;
      BytesOf(Digits(s)) == [x, y, z] + BytesOf(Digits(rest)) && Complaint(s, message) == Complaint(rest, message)
  {
    hide Six, Eight, Shifted, Accum, BytesOf, Digits, Complaint, Quad, Value;
    var t := (x * 256 + y) * 256 + z;
    PiecesMakeNumber(t);
    PiecesAreBytes(x, y, z);
    var g := [Six(t, 18), Six(t, 12), Six(t, 6), Six(t, 0)];
    AccumOf(Six(t, 18), Six(t, 12), Six(t, 6), Six(t, 0));
    FullQuad(t, rest, message);
    BytesOfStep(g, Digits(rest));
    assert GroupBytes(t, 4) == [x, y, z];
  }

  /** White space put anywhere into the base64 text of data changes nothing: the bytes come back
      and no error is reported. */
  lemma Base64RoundTrip(data: seq<nat>, text: string, message: Message)
    requires AreBytes(data) && Compact(text) == Encoded(data)
    ensures BytesOf(Digits(text)) == data && Complaint(text, message) == message
  {
    CompactReadsTheSame(text, message);
    EncodedReadsBack(data, message);
  }

  // ---------------------------------------------------------------- the bits of the text

  /** The k low bits of v, highest first */
  ghost function BitsOf(k: nat, v: nat): (b: seq<bool>)
    ensures |b| == k
  {
    if k == 0 then [] else BitsOf(k - 1, v / 2) + [v % 2 == 1]
  }

  /** k bits of each number, one after the other */
  ghost function Stream(k: nat, values: seq<nat>): seq<bool> {
    if |values| == 0 then [] else BitsOf(k, values[0]) + Stream(k, values[1..])
  }

  lemma {:induction false} SplitBits(a: nat, b: nat, hi: nat, lo: nat)
    requires lo < Pow2(b)
    ensures BitsOf(a + b, hi * Pow2(b) + lo) == BitsOf(a, hi) + BitsOf(b, lo)
    decreases b
  {
    if b == 0 {
      assert lo == 0 && BitsOf(0, 0) == [];
    } else {
      var w, v := Pow2(b - 1), hi * Pow2(b) + lo;
      Halves(hi, w, lo);
      SplitBits(a, b - 1, hi, lo / 2);
    }
  }

  lemma Halves(hi: nat, w: nat, lo: nat)
    requires lo < 2 * w
    ensures var v := hi * (2 * w) + lo; v / 2 == hi * w + lo / 2 && v % 2 == lo % 2
  {
    var p := hi * w;
    assert hi * (2 * w) == 2 * p;
  }

  lemma SplitBytes(a: nat, hi: nat, lo: nat)
    requires lo < 256
    ensures BitsOf(a + 8, hi * 256 + lo) == BitsOf(a, hi) + BitsOf(8, lo)
  {
    PowersOfTwo();
    SplitBits(a, 8, hi, lo);
  }

  lemma SplitDigits(a: nat, hi: nat, lo: nat)
    requires lo < 64
    ensures BitsOf(a + 6, hi * 64 + lo) == BitsOf(a, hi) + BitsOf(6, lo)
  {
    PowersOfTwo();
    SplitBits(a, 6, hi, lo);
  }

  lemma StreamStep(k: nat, v: nat, values: seq<nat>)
    ensures Stream(k, [v] + values) == BitsOf(k, v) + Stream(k, values)
  {
    assert ([v] + values)[1..] == values;
  }

  lemma StreamOfFour(k: nat, a: nat, b: nat, c: nat, d: nat, values: seq<nat>)
    ensures Stream(k, [a, b, c, d] + values) == BitsOf(k, a) + BitsOf(k, b) + BitsOf(k, c) + BitsOf(k, d)
      + Stream(k, values)
  {
    hide Stream, BitsOf;
    StreamStep(k, d, values);
    StreamStep(k, c, [d] + values);
    StreamStep(k, b, [c] + ([d] + values));
    StreamStep(k, a, [b] + ([c] + ([d] + values)));
    assert [a] + ([b] + ([c] + ([d] + values))) == [a, b, c, d] + values;
  }

  lemma StreamOfThree(k: nat, a: nat, b: nat, c: nat, values: seq<nat>)
    ensures Stream(k, [a, b, c] + values) == BitsOf(k, a) + BitsOf(k, b) + BitsOf(k, c) + Stream(k, values)
  {
    hide Stream, BitsOf;
    StreamStep(k, c, values);
    StreamStep(k, b, [c] + values);
    StreamStep(k, a, [b] + ([c] + values));
    assert [a] + ([b] + ([c] + values)) == [a, b, c] + values;
  }

  lemma BitsOfBytes(x: nat, y: nat, z: nat)
    requires y < 256 && z < 256
    ensures BitsOf(24, (x * 256 + y) * 256 + z) == BitsOf(8, x) + BitsOf(8, y) + BitsOf(8, z)
  {
    hide BitsOf;
    SplitBytes(16, x * 256 + y, z);
    SplitBytes(8, x, y);
  }

  lemma BitsOfDigits(a: nat, b: nat, c: nat, d: nat)
    requires b < 64 && c < 64 && d < 64
    ensures BitsOf(24, ((a * 64 + b) * 64 + c) * 64 + d) == BitsOf(6, a) + BitsOf(6, b) + BitsOf(6, c) + BitsOf(6, d)
  {
    hide BitsOf;
    SplitDigits(18, (a * 64 + b) * 64 + c, d);
    SplitDigits(12, a * 64 + b, c);
    SplitDigits(6, a, b);
  }

  /** Three bytes and four digits are the same 24 bits. */
  lemma SameBits(x: nat, y: nat, z: nat)
    requires x < 256 && y < 256 && z < 256
    ensures var t := (x * 256 + y) * 256 + z;
      BitsOf(6, Six(t, 18)) + BitsOf(6, Six(t, 12)) + BitsOf(6, Six(t, 6)) + BitsOf(6, Six(t, 0))
      == BitsOf(8, x) + BitsOf(8, y) + BitsOf(8, z)
  {
    hide BitsOf, Six;
    var t := (x * 256 + y) * 256 + z;
    NumberOfPieces(t);
    BitsOfBytes(x, y, z);
    BitsOfDigits(Six(t, 18), Six(t, 12), Six(t, 6), Six(t, 0));
  }

  lemma ZeroBits(k: nat)
    ensures BitsOf(k, 0) == Zeros(k)
  {
    if k > 0 {
      ZeroBits(k - 1);
    }
  }

  ghost function Filler(n: nat): nat {
    if n % 3 == 0 then 0 else if n % 3 == 1 then 4 else 2
  }

  /** The text of RFC 4648 section 4: its digits, six bits each, are the bits of the data, eight
      each, with zero bits up to the next digit, and padding makes whole groups of four. */
  ghost predicate IsBase64(text: string, data: seq<nat>) {
    && |text| == (|data| + 2) / 3 * 4
    && Stream(6, Digits(text)) == Stream(8, data) + Zeros(Filler(|data|))
  }

  lemma {:induction false} DigitsAreTheBits(data: seq<nat>)
    requires AreBytes(data)
    ensures IsBase64(Encoded(data), data)
    decreases |data|
  {
    hide Digits, Stream, BitsOf, Six;
    if |data| == 0 {
      NoDigits();
    } else if |data| == 1 {
      OneByteBits(data[0]);
      assert data == [data[0]];
    } else if |data| == 2 {
      TwoByteBits(data[0], data[1]);
      assert data == [data[0], data[1]];
    } else {
      DigitsAreTheBits(data[3..]);
      MoreBits(data);
    }
  }

  lemma MoreBits(data: seq<nat>)
    requires AreBytes(data) && |data| >= 3 && IsBase64(Encoded(data[3..]), data[3..])
    ensures IsBase64(Encoded(data), data)
  {
    hide Digits, Stream, BitsOf, Encoded, Zeros;
    var x, y, z, rest := data[0], data[1], data[2], data[3..];
    GroupsOfThree(|rest|);
    hide Filler;
    EncodedThree(x, y, z, rest);
    ThreeByteBits(x, y, z, rest);
    assert data == [x, y, z] + rest;
    Regroup(Stream(8, [x, y, z]), Stream(8, rest), Zeros(Filler(|rest|)));
  }

  lemma GroupsOfThree(n: nat)
    ensures Filler(n + 3) == Filler(n) && (n + 3 + 2) / 3 * 4 == (n + 2) / 3 * 4 + 4
  {
  }

  lemma NoDigits()
    ensures Digits("") == [] && forall k :: Stream(k, []) == []
  {
  }

  /** Zero bits at the end of equal bit strings can be taken off. */
  lemma Trim(p: seq<bool>, q: seq<bool>, n: nat, m: nat)
    requires n <= m && p + Zeros(n) == q + Zeros(m)
    ensures p == q + Zeros(m - n)
  {
    var r := p + Zeros(n);
    assert |p| == |q| + (m - n);
    forall i | 0 <= i < |p|
      ensures p[i] == (q + Zeros(m - n))[i]
    {
      assert p[i] == r[i] == (q + Zeros(m))[i];
    }
  }

  lemma StreamOne(k: nat, a: nat)
    ensures Stream(k, [a]) == BitsOf(k, a)
  {
    assert [a] + [] == [a];
    StreamStep(k, a, []);
  }

  /** With the last two digits zero, the bits of the first two are those of the byte. */
  lemma ByteInTwoDigits(x: nat, a: nat, b: nat)
    requires BitsOf(6, a) + BitsOf(6, b) + BitsOf(6, 0) + BitsOf(6, 0) == BitsOf(8, x) + BitsOf(8, 0) + BitsOf(8, 0)
    ensures BitsOf(6, a) + BitsOf(6, b) == BitsOf(8, x) + Zeros(4)
  {
    ZeroBits(6);
    ZeroBits(8);
    hide BitsOf;
    var p := BitsOf(6, a) + BitsOf(6, b);
    assert Zeros(6) + Zeros(6) == Zeros(12) && Zeros(8) + Zeros(8) == Zeros(16);
    Regroup(p, Zeros(6), Zeros(6));
    Regroup(BitsOf(8, x), Zeros(8), Zeros(8));
    Trim(p, BitsOf(8, x), 12, 16);
  }

  lemma SameBitsOne(x: nat)
    requires x < 256
    ensures var t := (x * 256 + 0) * 256 + 0;
      BitsOf(6, Six(t, 18)) + BitsOf(6, Six(t, 12)) == BitsOf(8, x) + Zeros(4)
  {
    hide BitsOf, Six;
    var t := (x * 256 + 0) * 256 + 0;
    SameBits(x, 0, 0);
    PiecesPastTheEnd(x, 0);
    ByteInTwoDigits(x, Six(t, 18), Six(t, 12));
  }

  lemma OneByteBits(x: nat)
    requires x < 256
    ensures Stream(6, Digits(Encoded([x]))) == Stream(8, [x]) + Zeros(4)
  {
    var t := (x * 256 + 0) * 256 + 0;
    assert Encoded([x]) == Quad(t, true, true);
    hide Stream, BitsOf, Six, Digits, Encoded, Quad, Complaint, BytesOf, Value, Digit;
    OneByteReadsBack(x, Empty);
    SameBitsOne(x);
    var a, b := Six(t, 18), Six(t, 12);
    StreamOne(8, x);
    StreamOne(6, b);
    StreamStep(6, a, [b]);
    assert [a] + [b] == [a, b];
  }

  lemma BytesInThreeDigits(x: nat, y: nat, a: nat, b: nat, c: nat)
    requires BitsOf(6, a) + BitsOf(6, b) + BitsOf(6, c) + BitsOf(6, 0) == BitsOf(8, x) + BitsOf(8, y) + BitsOf(8, 0)
    ensures BitsOf(6, a) + BitsOf(6, b) + BitsOf(6, c) == BitsOf(8, x) + BitsOf(8, y) + Zeros(2)
  {
    hide BitsOf;
    ZeroBits(6);
    ZeroBits(8);
    Trim(BitsOf(6, a) + BitsOf(6, b) + BitsOf(6, c), BitsOf(8, x) + BitsOf(8, y), 6, 8);
  }

  lemma SameBitsTwo(x: nat, y: nat)
    requires x < 256 && y < 256
    ensures var t := (x * 256 + y) * 256 + 0;
      BitsOf(6, Six(t, 18)) + BitsOf(6, Six(t, 12)) + BitsOf(6, Six(t, 6)) == BitsOf(8, x) + BitsOf(8, y) + Zeros(2)
  {
    hide BitsOf, Six;
    var t := (x * 256 + y) * 256 + 0;
    SameBits(x, y, 0);
    PiecesPastTheEnd(x, y);
    BytesInThreeDigits(x, y, Six(t, 18), Six(t, 12), Six(t, 6));
  }

  lemma TwoByteBits(x: nat, y: nat)
    requires x < 256 && y < 256
    ensures Stream(6, Digits(Encoded([x, y]))) == Stream(8, [x, y]) + Zeros(2)
  {
    var t := (x * 256 + y) * 256 + 0;
    assert Encoded([x, y]) == Quad(t, false, true);
    hide Stream, BitsOf, Six, Digits, Encoded, Quad, Complaint, BytesOf, Value, Digit;
    TwoBytesReadBack(x, y, Empty);
    SameBitsTwo(x, y);
    var a, b, c := Six(t, 18), Six(t, 12), Six(t, 6);
    StreamOne(8, y);
    StreamStep(8, x, [y]);
    assert [x] + [y] == [x, y];
    NoDigits();
    StreamOfThree(6, a, b, c, []);
    assert [a, b, c] + [] == [a, b, c];
  }

  lemma EncodedThree(x: nat, y: nat, z: nat, rest: seq<nat>)
    ensures Encoded([x, y, z] + rest) == Quad((x * 256 + y) * 256 + z, false, false) + Encoded(rest)
    ensures |Encoded([x, y, z] + rest)| == 4 + |Encoded(rest)|
  {
    var data := [x, y, z] + rest;
    assert data[3..] == rest && Triple(data) == (x * 256 + y) * 256 + z;
    assert Encoded(data) == Quad(Triple(data), false, false) + Encoded(data[3..]);
    hide Encoded, Triple, Digit, Six;
  }

  lemma ThreeByteBits(x: nat, y: nat, z: nat, rest: seq<nat>)
    requires x < 256 && y < 256 && z < 256
    ensures Stream(6, Digits(Encoded([x, y, z] + rest))) == Stream(8, [x, y, z]) + Stream(6, Digits(Encoded(rest)))
    ensures Stream(8, [x, y, z] + rest) == Stream(8, [x, y, z]) + Stream(8, rest)
  {
    NoDigits();
    hide Stream, BitsOf, Six, Digits, Encoded, Quad, Complaint;
    var t := (x * 256 + y) * 256 + z;
    EncodedThree(x, y, z, rest);
    FullQuad(t, Encoded(rest), Empty);
    SameBits(x, y, z);
    StreamOfFour(6, Six(t, 18), Six(t, 12), Six(t, 6), Six(t, 0), Digits(Encoded(rest)));
    StreamOfThree(8, x, y, z, rest);
    StreamOfThree(8, x, y, z, []);
    assert [x, y, z] + [] == [x, y, z];
    hide Value, Digit;
  }

  // ---------------------------------------------------------------- the bits of the bytes

  lemma NumberOfDigits(a: nat, b: nat, c: nat, d: nat)
    ensures ((a * 64 + b) * 64 + c) * 64 + d == Shifted(a, 0) + Shifted(b, 1) + Shifted(c, 2) + Shifted(d, 3)
  {
    PowersOfTwo();
    hide Pow2;
  }

  lemma BytesMakeNumber(t: nat)
    requires t < 0x100_0000
    ensures t == (Eight(t, 16) * 256 + Eight(t, 8)) * 256 + Eight(t, 0)
  {
    var h := t / 256;
    var x, y, z := h / 256, h % 256, t % 256;
    assert h == 256 * x + y && t == 256 * h + z;
    PiecesAreBytes(x, y, z);
  }

  lemma FourDigitsThreeBytes(a: nat, b: nat, c: nat, d: nat)
    requires a < 64 && b < 64 && c < 64 && d < 64
    ensures var t := ((a * 64 + b) * 64 + c) * 64 + d;
      BitsOf(8, Eight(t, 16)) + BitsOf(8, Eight(t, 8)) + BitsOf(8, Eight(t, 0))
      == BitsOf(6, a) + BitsOf(6, b) + BitsOf(6, c) + BitsOf(6, d)
  {
    hide BitsOf, Eight;
    var t := ((a * 64 + b) * 64 + c) * 64 + d;
    var x, y, z := Eight(t, 16), Eight(t, 8), Eight(t, 0);
    var n := BitsOf(24, t);
    assert n == BitsOf(8, x) + BitsOf(8, y) + BitsOf(8, z) by {
      BytesMakeNumber(t);
      BitsOfBytes(x, y, z);
    }
    assert n == BitsOf(6, a) + BitsOf(6, b) + BitsOf(6, c) + BitsOf(6, d) by {
      BitsOfDigits(a, b, c, d);
    }
  }

  /** The number of up to four digits, those not there counting as 0 */
  lemma AccumIsNumber(a: nat, b: nat, c: nat, d: nat)
    ensures Accum([a]) == ((a * 64 + 0) * 64 + 0) * 64 + 0
    ensures Accum([a, b]) == ((a * 64 + b) * 64 + 0) * 64 + 0
    ensures Accum([a, b, c]) == ((a * 64 + b) * 64 + c) * 64 + 0
    ensures Accum([a, b, c, d]) == ((a * 64 + b) * 64 + c) * 64 + d
  {
    assert Accum([]) == 0 && [] + [a] == [a];
    assert Shifted(0, 1) == Shifted(0, 2) == Shifted(0, 3) == 0;
    hide Shifted, Accum;
    AccumStep([], a);
    AccumOf(a, b, c, d);
    NumberOfDigits(a, 0, 0, 0);
    NumberOfDigits(a, b, 0, 0);
    NumberOfDigits(a, b, c, 0);
    NumberOfDigits(a, b, c, d);
  }

  lemma FrontOf(p: seq<bool>, r: seq<bool>, q: seq<bool>, m: seq<bool>)
    requires p + r == q + m && |p| <= |q|
    ensures p <= q
  {
    assert p == (p + r)[..|p|] == (q + m)[..|p|] == q[..|p|];
  }

  /** The bits of the bytes of a group are those of its digits. */
  ghost predicate SameGroup(g: seq<nat>)
    requires |g| <= 4
  {
    && Stream(8, GroupBytes(Accum(g), |g|)) <= Stream(6, g) + Zeros(2)
    && (|g| == 4 ==> Stream(8, GroupBytes(Accum(g), 4)) == Stream(6, g))
  }

  lemma OneDigitBits(a: nat)
    requires a < 64
    ensures SameGroup([a])
  {
    hide BitsOf, Eight, Accum, Stream;
    AccumIsNumber(a, 0, 0, 0);
    FourDigitsThreeBytes(a, 0, 0, 0);
    var t := ((a * 64 + 0) * 64 + 0) * 64 + 0;
    ZeroBits(6);
    var p, r := BitsOf(8, Eight(t, 16)), BitsOf(8, Eight(t, 8)) + BitsOf(8, Eight(t, 0));
    var q, m := BitsOf(6, a) + Zeros(2), Zeros(4) + Zeros(6) + Zeros(6);
    assert Zeros(6) == Zeros(2) + Zeros(4);
    Regroup(BitsOf(8, Eight(t, 16)), BitsOf(8, Eight(t, 8)), BitsOf(8, Eight(t, 0)));
    assert q + m == BitsOf(6, a) + Zeros(6) + Zeros(6) + Zeros(6);
    FrontOf(p, r, q, m);
    assert GroupBytes(t, 1) == [Eight(t, 16)];
    StreamOne(8, Eight(t, 16));
    StreamOne(6, a);
  }

  lemma TwoDigitBits(a: nat, b: nat)
    requires a < 64 && b < 64
    ensures SameGroup([a, b])
  {
    hide BitsOf, Eight, Accum, Stream;
    AccumIsNumber(a, b, 0, 0);
    FourDigitsThreeBytes(a, b, 0, 0);
    var t := ((a * 64 + b) * 64 + 0) * 64 + 0;
    var p, r := BitsOf(8, Eight(t, 16)), BitsOf(8, Eight(t, 8)) + BitsOf(8, Eight(t, 0));
    Regroup(BitsOf(8, Eight(t, 16)), BitsOf(8, Eight(t, 8)), BitsOf(8, Eight(t, 0)));
    Regroup(BitsOf(6, a) + BitsOf(6, b), BitsOf(6, 0), BitsOf(6, 0));
    FrontOf(p, r, BitsOf(6, a) + BitsOf(6, b), BitsOf(6, 0) + BitsOf(6, 0));
    assert GroupBytes(t, 2) == [Eight(t, 16)];
    StreamOne(8, Eight(t, 16));
    StreamsOf(6, a, b, 0, 0);
  }

  lemma ThreeDigitBits(a: nat, b: nat, c: nat)
    requires a < 64 && b < 64 && c < 64
    ensures SameGroup([a, b, c])
  {
    hide BitsOf, Eight, Accum, Stream;
    AccumIsNumber(a, b, c, 0);
    FourDigitsThreeBytes(a, b, c, 0);
    var t := ((a * 64 + b) * 64 + c) * 64 + 0;
    FrontOf(BitsOf(8, Eight(t, 16)) + BitsOf(8, Eight(t, 8)), BitsOf(8, Eight(t, 0)),
      BitsOf(6, a) + BitsOf(6, b) + BitsOf(6, c), BitsOf(6, 0));
    assert GroupBytes(t, 3) == [Eight(t, 16), Eight(t, 8)];
    StreamsOf(8, Eight(t, 16), Eight(t, 8), 0, 0);
    StreamsOf(6, a, b, c, 0);
  }

  lemma FourDigitBits(a: nat, b: nat, c: nat, d: nat)
    requires a < 64 && b < 64 && c < 64 && d < 64
    ensures SameGroup([a, b, c, d])
  {
    hide BitsOf, Eight, Accum, Stream;
    AccumIsNumber(a, b, c, d);
    FourDigitsThreeBytes(a, b, c, d);
    var t := ((a * 64 + b) * 64 + c) * 64 + d;
    assert GroupBytes(t, 4) == [Eight(t, 16), Eight(t, 8), Eight(t, 0)];
    StreamsOf(8, Eight(t, 16), Eight(t, 8), Eight(t, 0), 0);
    StreamsOf(6, a, b, c, d);
  }

  lemma GroupIsTheBits(g: seq<nat>)
    requires |g| <= 4 && forall i :: 0 <= i < |g| ==> g[i] < 64
    ensures SameGroup(g)
  {
    assert SameGroup([]) by {
      NoDigits();
      assert GroupBytes(Accum([]), 0) == [];
    }
    hide SameGroup;
    if |g| == 1 {
      OneDigitBits(g[0]);
      assert g == [g[0]];
    } else if |g| == 2 {
      TwoDigitBits(g[0], g[1]);
      assert g == [g[0], g[1]];
    } else if |g| == 3 {
      ThreeDigitBits(g[0], g[1], g[2]);
      assert g == [g[0], g[1], g[2]];
    } else if |g| == 4 {
      FourDigitBits(g[0], g[1], g[2], g[3]);
      assert g == [g[0], g[1], g[2], g[3]];
    }
  }

  lemma StreamsOf(k: nat, a: nat, b: nat, c: nat, d: nat)
    ensures Stream(k, [a]) == BitsOf(k, a)
    ensures Stream(k, [a, b]) == BitsOf(k, a) + BitsOf(k, b)
    ensures Stream(k, [a, b, c]) == BitsOf(k, a) + BitsOf(k, b) + BitsOf(k, c)
    ensures Stream(k, [a, b, c, d]) == BitsOf(k, a) + BitsOf(k, b) + BitsOf(k, c) + BitsOf(k, d)
  {
    NoDigits();
    hide BitsOf, Stream;
    StreamOne(k, a);
    StreamOne(k, b);
    StreamStep(k, a, [b]);
    assert [a] + [b] == [a, b];
    StreamOfThree(k, a, b, c, []);
    assert [a, b, c] + [] == [a, b, c];
    StreamOfFour(k, a, b, c, d, []);
    assert [a, b, c, d] + [] == [a, b, c, d];
  }

  lemma {:induction false} StreamOfConcat(k: nat, a: seq<nat>, b: seq<nat>)
    ensures Stream(k, a + b) == Stream(k, a) + Stream(k, b)
  {
    if |a| == 0 {
      assert a + b == b;
    } else {
      StreamOfConcat(k, a[1..], b);
      assert (a + b)[1..] == a[1..] + b;
      hide Stream, BitsOf;
      Regroup(BitsOf(k, a[0]), Stream(k, a[1..]), Stream(k, b));
    }
  }

  /** Whatever their number: the bytes decoded are, eight bits each, the bits of the digits, six each.
      Bits that make no whole byte are dropped, but a single digit makes a byte with two zeros. */
  lemma {:induction false} BytesAreTheBits(d: seq<nat>)
    requires forall i :: 0 <= i < |d| ==> d[i] < 64
    ensures Stream(8, BytesOf(d)) <= Stream(6, d) + Zeros(2)
    ensures |BytesOf(d)| == |d| / 4 * 3 + if |d| % 4 == 0 then 0 else if |d| % 4 == 3 then 2 else 1
  {
    if |d| <= 4 {
      BytesOfShort(d);
      hide Stream, Accum, Eight;
      GroupIsTheBits(d);
    } else {
      var g, rest := d[..4], d[4..];
      assert d == g + rest && |d| / 4 == |rest| / 4 + 1 && |d| % 4 == |rest| % 4;
      hide Stream, Accum, BytesOf, Eight, Zeros;
      BytesOfStep(g, rest);
      BytesAreTheBits(rest);
      GroupIsTheBits(g);
      StreamOfConcat(6, g, rest);
      StreamOfConcat(8, GroupBytes(Accum(g), 4), BytesOf(rest));
      Regroup(Stream(6, g), Stream(6, rest), Zeros(2));
    }
  }

  lemma {:induction false} DigitsAreSmall(text: string)
    ensures forall i :: 0 <= i < |Digits(text)| ==> Digits(text)[i] < 64
  {
    if text != "" {
      DigitsAreSmall(text[1..]);
    }
  }

  /** Decoding any text, valid or not */
  lemma DecodedIsTheBits(text: string)
    ensures var d := Digits(text);
      && Stream(8, BytesOf(d)) <= Stream(6, d) + Zeros(2)
      && |BytesOf(d)| == |d| / 4 * 3 + if |d| % 4 == 0 then 0 else if |d| % 4 == 3 then 2 else 1
  {
    DigitsAreSmall(text);
    BytesAreTheBits(Digits(text));
  }

  /** The text ends with as many '=' as bytes are missing from the last group of three. */
  lemma {:induction false} PaddingPlaces(data: seq<nat>)
    ensures var t := Encoded(data);
      && (|data| % 3 != 0 ==> |t| >= 4)
      && forall i :: 0 <= i < |t| ==> (t[i] == '=' <==> i >= |t| - if |data| % 3 == 0 then 0 else 3 - |data| % 3)
    decreases |data|
  {
    hide Six, Digit, Triple;
    if |data| >= 3 {
      var rest := Encoded(data[3..]);
      PaddingPlaces(data[3..]);
      assert Encoded(data) == Quad(Triple(data), false, false) + rest && |data| % 3 == |data[3..]| % 3;
    }
  }

  // ---------------------------------------------------------------- hex

  /** The reverse map runs on to 'Z' and 'z'; 16 and above is no hex digit. */
  function HexValue(c: char): nat {
    if '0' <= c <= '9' then (c - '0') as nat
    else if 'A' <= c <= 'Z' then (c - 'A') as nat + 10
    else if 'a' <= c <= 'z' then (c - 'a') as nat + 10
    else 255
  }

  function HexDigit(d: nat): (c: char)
    requires d < 16
    ensures HexValue(c) == d && !IsSpace(c)
  {
    if d <= 9 then '0' + d as char else 'A' + (d - 10) as char
  }

  /** accum << 4 | value; a bad character leaves accum as it is. */
  function Push(accum: nat, c: char): nat {
    if HexValue(c) >= 16 then accum else accum * 16 + HexValue(c)
  }

  /** The bytes of text without white space */
  function HexBytes(t: string): (r: seq<nat>)
    ensures |r| == (|t| + 1) / 2
  {
    if |t| == 0 then []
    else if |t| == 1 then [Push(0, t[0])]
    else [Push(Push(0, t[0]), t[1])] + HexBytes(t[2..])
  }

  function HexComplaint(t: string, message: Message): Message {
    if |t| == 0 then message
    else if |t| == 1 then OddLength
    else HexComplaint(t[2..], if HexValue(t[0]) < 16 && HexValue(t[1]) < 16 then message else UnexpectedCharacter)
  }

  function HexPair(x: nat): (p: string)
    ensures |p| == 2
  {
    [HexDigit(x / 16 % 16), HexDigit(x % 16)]
  }

  function HexEncoded(data: seq<nat>): string {
    if |data| == 0 then "" else HexPair(data[0]) + HexEncoded(data[1..])
  }

  lemma HexEncodedStep(data: seq<nat>, i: nat)
    requires i < |data|
    ensures HexEncoded(data[i..]) == HexPair(data[i]) + HexEncoded(data[i + 1..])
  {
    assert data[i..][1..] == data[i + 1..] && data[i..][0] == data[i];
  }

  method PutPair(was: string, x: nat) returns (result: string)
    ensures result == was + HexPair(x)
  {
    result := was + [HexDigit(x / 16 % 16)];
    result := result + [HexDigit(x % 16)];
  }

  method HexEncode(data: seq<nat>) returns (result: string)
    ensures result == HexEncoded(data)
  {
    assert HexEncoded([]) == "" && data[0..] == data;
    hide HexPair, HexEncoded;
    result := "";
    for i := 0 to |data|
      invariant HexEncoded(data) == result + HexEncoded(data[i..])
    {
      HexEncodedStep(data, i);
      Regroup(result, HexPair(data[i]), HexEncoded(data[i + 1..]));
      result := PutPair(result, data[i]);
    }
    assert data[|data|..] == [];
  }

  lemma CompactStep(text: string, i: nat)
    requires i < |text|
    ensures Compact(text[i..]) == (if IsSpace(text[i]) then "" else [text[i]]) + Compact(text[i + 1..])
  {
    assert text[i..][0] == text[i] && text[i..][1..] == text[i + 1..];
  }

  /** Up to two characters; accum and error are as after reading them. */
  method GatherHex(text: string, from: nat, message: Message)
    returns (i: nat, accum: nat, j: nat, error: Message, ghost g: string)
    requires from < |text|
    ensures from < i <= |text| && j == |g| <= 2 && (j < 2 ==> i == |text|)
    ensures Compact(text[from..]) == g + Compact(text[i..])
    ensures j == 1 ==> accum == Push(0, g[0])
    ensures j == 2 ==> accum == Push(Push(0, g[0]), g[1])
    ensures j == 0 ==> error == message
    ensures j == 2 ==> error == if HexValue(g[0]) < 16 && HexValue(g[1]) < 16 then message else UnexpectedCharacter
  {
    hide Compact, HexValue, IsSpace;
    i, accum, j, error, g := from, 0, 0, message, "";
    while j < 2 && i < |text|
      invariant from <= i <= |text| && j == |g| <= 2 && (i == from ==> j == 0)
      invariant Compact(text[from..]) == g + Compact(text[i..])
      invariant j == 0 ==> accum == 0 && error == message
      invariant j == 1 ==> accum == Push(0, g[0])
      invariant j == 1 ==> error == if HexValue(g[0]) < 16 then message else UnexpectedCharacter
      invariant j == 2 ==> accum == Push(Push(0, g[0]), g[1])
      invariant j == 2 ==> error == if HexValue(g[0]) < 16 && HexValue(g[1]) < 16 then message else UnexpectedCharacter
      decreases |text| - i
    {
      var c := text[i];
      CompactStep(text, i);
      i := i + 1;
      if IsSpace(c) {
        continue;
      }
      var decoded := HexValue(c);
      if decoded >= 16 {
        error := UnexpectedCharacter;
      } else {
        accum := accum * 16 + decoded;
      }
      Regroup(g, [c], Compact(text[i..]));
      g := g + [c];
      j := j + 1;
    }
  }

  lemma HexStep(g: string, rest: string, message: Message)
    requires |g| <= 2 && (|g| < 2 ==> rest == "")
    ensures |g| == 0 ==> HexBytes(g + rest) == [] && HexComplaint(g + rest, message) == message
    ensures |g| == 1 ==> HexBytes(g + rest) == [Push(0, g[0])] && HexComplaint(g + rest, message) == OddLength
    ensures |g| == 2 ==> HexBytes(g + rest) == [Push(Push(0, g[0]), g[1])] + HexBytes(rest)
    ensures |g| == 2 ==> (HexComplaint(g + rest, message) ==
      HexComplaint(rest, if HexValue(g[0]) < 16 && HexValue(g[1]) < 16 then message else UnexpectedCharacter))
  {
    hide HexValue, Push;
    var t := g + rest;
    if |g| == 2 {
      assert t[2..] == rest && t[0] == g[0] && t[1] == g[1];
    } else {
      assert t == g;
    }
  }

  method HexDecode(text: string, message: Message) returns (result: seq<nat>, error: Message)
    ensures result == HexBytes(Compact(text)) && error == HexComplaint(Compact(text), message)
  {
    assert text[0..] == text && Compact("") == "" && HexBytes("") == [];
    assert forall e: Message :: HexComplaint("", e) == e;
    hide Compact, HexBytes, HexComplaint, HexValue, Push;
    result, error := [], message;
    var i := 0;
    while i < |text|
      invariant i <= |text|
      invariant HexBytes(Compact(text)) == result + HexBytes(Compact(text[i..]))
      invariant HexComplaint(Compact(text), message) == HexComplaint(Compact(text[i..]), error)
    {
      var accum, j;
      ghost var g;
      ghost var before := error;
      i, accum, j, error, g := GatherHex(text, i, error);
      assert i == |text| ==> text[i..] == "";
      HexStep(g, Compact(text[i..]), before);
      Regroup(result, [accum], HexBytes(Compact(text[i..])));
      if j != 0 {
        result := result + [accum];
      }
      if j == 1 {
        error := OddLength;
      }
    }
    assert text[i..] == "";
  }

  /** The digits are upper case; reading takes both cases, and nothing else has a value below 16. */
  lemma HexAlphabet(d: nat, c: char)
    requires d < 16
    ensures HexDigit(d) == "0123456789ABCDEF"[d]
    ensures HexValue(c) == d <==> c == "0123456789ABCDEF"[d] || c == "0123456789abcdef"[d]
  {
  }

  /** Byte k is made of characters 2k and 2k + 1: a bad character counts for nothing, and the last
      one of an odd number makes a byte of its own. */
  lemma {:induction false} HexByteAt(t: string, k: nat)
    requires 2 * k < |t|
    ensures var high, low := HexValue(t[2 * k]), if 2 * k + 1 < |t| then HexValue(t[2 * k + 1]) else 255;
      HexBytes(t)[k] == if low >= 16 then (if high < 16 then high else 0)
                        else if high >= 16 then low else 16 * high + low
  {
    hide HexValue;
    if k > 0 {
      HexByteAt(t[2..], k - 1);
    }
  }

  /** An odd number of characters is reported, otherwise a bad character, and nothing else. */
  lemma {:induction false} HexReported(t: string, message: Message)
    ensures HexComplaint(t, message) ==
      if |t| % 2 == 1 then OddLength
      else if exists k :: 0 <= k < |t| && HexValue(t[k]) >= 16 then UnexpectedCharacter
      else message
    decreases |t|
  {
    if |t| >= 2 {
      var good := HexValue(t[0]) < 16 && HexValue(t[1]) < 16;
      var rest := t[2..];
      HexReported(rest, message);
      HexReported(rest, UnexpectedCharacter);
      assert |t| % 2 == |rest| % 2;
      hide HexValue;
      if k :| 0 <= k < |rest| && HexValue(rest[k]) >= 16 {
        assert t[k + 2] == rest[k];
      }
      if k :| 0 <= k < |t| && HexValue(t[k]) >= 16 {
        assert k >= 2 ==> t[k] == rest[k - 2];
      }
    }
  }

  lemma PushTwo(x: nat)
    requires x < 256
    ensures Push(Push(0, HexDigit(x / 16 % 16)), HexDigit(x % 16)) == x
  {
  }

  lemma {:induction false} HexReadsBack(data: seq<nat>, message: Message)
    requires AreBytes(data)
    ensures HexBytes(HexEncoded(data)) == data && HexComplaint(HexEncoded(data), message) == message
  {
    if |data| > 0 {
      HexReadsBack(data[1..], message);
      var x := data[0];
      var g := [HexDigit(x / 16 % 16), HexDigit(x % 16)];
      PushTwo(x);
      hide HexBytes, HexComplaint, HexDigit, HexValue, Push;
      HexStep(g, HexEncoded(data[1..]), message);
      assert data == [x] + data[1..];
    }
  }

  ghost function HexValues(t: string): seq<nat> {
    if t == "" then [] else [HexValue(t[0])] + HexValues(t[1..])
  }

  /** The text of RFC 4648 section 8: its digits, four bits each, are the bits of the data. */
  lemma {:induction false} HexDigitsAreTheBits(data: seq<nat>)
    requires AreBytes(data)
    ensures Stream(4, HexValues(HexEncoded(data))) == Stream(8, data)
  {
    if |data| > 0 {
      HexDigitsAreTheBits(data[1..]);
      ByteOfTwo(data[0], HexEncoded(data[1..]));
    }
  }

  lemma ByteOfTwo(x: nat, rest: string)
    requires x < 256
    ensures var t := [HexDigit(x / 16 % 16), HexDigit(x % 16)] + rest;
      Stream(4, HexValues(t)) == BitsOf(8, x) + Stream(4, HexValues(rest))
  {
    var t := [HexDigit(x / 16 % 16), HexDigit(x % 16)] + rest;
    assert t[1..][1..] == rest;
    assert HexValues(t) == [x / 16] + ([x % 16] + HexValues(rest));
    assert Pow2(4) == 16;
    SplitBits(4, 4, x / 16, x % 16);
    hide HexValues, BitsOf, Stream;
    StreamStep(4, x % 16, HexValues(rest));
    StreamStep(4, x / 16, [x % 16] + HexValues(rest));
  }

  /** White space put anywhere into the hex text of data changes nothing. */
  lemma HexRoundTrip(data: seq<nat>, text: string, message: Message)
    requires AreBytes(data) && Compact(text) == HexEncoded(data)
    ensures HexBytes(Compact(text)) == data && HexComplaint(Compact(text), message) == message
  {
    HexReadsBack(data, message);
  }

  // ---------------------------------------------------------------- by name

  datatype Encoding = Binary | Hex | Base64 | Unknown

  function Named(encoding: string): Encoding {
    if encoding == "binary" then Binary
    else if encoding == "hex" || encoding == "base16" then Hex
    else if encoding == "base64" then Base64
    else Unknown
  }

  function Chars(data: seq<nat>): (s: string)
    requires AreBytes(data)
    ensures |s| == |data| && forall i :: 0 <= i < |data| ==> s[i] == data[i] as char
  {
    seq(|data|, i requires 0 <= i < |data| => data[i] as char)
  }

  function Codes(text: string): (d: seq<nat>)
    ensures |d| == |text| && forall i :: 0 <= i < |text| ==> d[i] == text[i] as nat
  {
    seq(|text|, i requires 0 <= i < |text| => text[i] as nat)
  }

  function EncodedAs(encoding: Encoding, data: seq<nat>): string
    requires AreBytes(data)
  {
    match encoding
    case Binary => Chars(data)
    case Hex => HexEncoded(data)
    case Base64 => Encoded(data)
    case Unknown => ""
  }

  function DecodedAs(encoding: Encoding, text: string): seq<nat> {
    match encoding
    case Binary => Codes(text)
    case Hex => HexBytes(Compact(text))
    case Base64 => BytesOf(Digits(text))
    case Unknown => []
  }

  function ComplaintAs(encoding: Encoding, text: string, message: Message): Message {
    match encoding
    case Hex => HexComplaint(Compact(text), message)
    case Base64 => Complaint(text, message)
    case _ => message
  }

  method EncodeToString(data: seq<nat>, encoding: string, message: Message) returns (text: string, error: Message)
    requires AreBytes(data)
    ensures text == EncodedAs(Named(encoding), data)
    ensures encoding == "binary" ==> text == Chars(data) && error == message
    ensures encoding == "hex" || encoding == "base16" ==> text == HexEncoded(data) && error == message
    ensures encoding == "base64" ==> text == Encoded(data) && error == message
    ensures encoding !in {"binary", "hex", "base16", "base64"} ==> text == "" && error == UnexpectedEncoding(encoding)
  {
    error := message;
    if encoding == "binary" {
      text := Chars(data);
    } else if encoding == "hex" || encoding == "base16" {
      text := HexEncode(data);
    } else if encoding == "base64" {
      text := Base64Encode(data);
    } else {
      text, error := "", UnexpectedEncoding(encoding);
    }
  }

  method DecodeToString(text: string, encoding: string, message: Message) returns (data: seq<nat>, error: Message)
    ensures data == DecodedAs(Named(encoding), text)
    ensures encoding == "binary" ==> data == Codes(text) && error == message
    ensures encoding == "hex" || encoding == "base16" ==>
      data == HexBytes(Compact(text)) && error == HexComplaint(Compact(text), message)
    ensures encoding == "base64" ==> data == BytesOf(Digits(text)) && error == Complaint(text, message)
    ensures encoding !in {"binary", "hex", "base16", "base64"} ==> data == [] && error == UnexpectedEncoding(encoding)
  {
    if encoding == "binary" {
      data, error := Codes(text), message;
    } else if encoding == "hex" || encoding == "base16" {
      data, error := HexDecode(text, message);
    } else if encoding == "base64" {
      data, error := Base64Decode(text, message);
    } else {
      data, error := [], UnexpectedEncoding(encoding);
    }
  }

  /** Whatever the known encoding, decoding gives the data back and reports nothing; for hex and
      base64 white space may have been added anywhere. */
  lemma RoundTrip(encoding: Encoding, data: seq<nat>, text: string, message: Message)
    requires AreBytes(data) && encoding != Unknown
    requires text == EncodedAs(encoding, data) || (encoding != Binary && Compact(text) == EncodedAs(encoding, data))
    ensures DecodedAs(encoding, text) == data && ComplaintAs(encoding, text, message) == message
  {
    hide Encoded, HexEncoded, Compact, HexBytes, HexComplaint, Complaint, BytesOf, Digits;
    match encoding
    case Binary =>
    case Hex =>
      EncodedIsCompact(data);
      HexRoundTrip(data, text, message);
    case Base64 =>
      EncodedIsCompact(data);
      Base64RoundTrip(data, text, message);
  }

  lemma {:induction false} CompactIsSame(text: string)
    requires forall i :: 0 <= i < |text| ==> !IsSpace(text[i])
    ensures Compact(text) == text
  {
    if text != "" {
      CompactIsSame(text[1..]);
    }
  }

  lemma EncodedIsCompact(data: seq<nat>)
    ensures Compact(Encoded(data)) == Encoded(data) && Compact(HexEncoded(data)) == HexEncoded(data)
  {
    NoSpaces(data);
    CompactIsSame(Encoded(data));
    CompactIsSame(HexEncoded(data));
  }

  lemma {:induction false} NoSpaces(data: seq<nat>)
    ensures forall i :: 0 <= i < |Encoded(data)| ==> !IsSpace(Encoded(data)[i])
    ensures forall i :: 0 <= i < |HexEncoded(data)| ==> !IsSpace(HexEncoded(data)[i])
  {
    hide Triple, Digit, Six, HexDigit;
    if |data| > 0 {
      NoSpaces(data[1..]);
      if |data| > 2 {
        NoSpaces(data[3..]);
      }
    }
  }
}
