/**
 The black-fill and key images of an alpha export, in integer linear light.  The two 8-bit
 transfer tables are parameters that pin one another.
 */
module AlphaExport {
  import opened Wrappers

  datatype AlphaExportError = FrameLength(expected: nat, actual: nat)

  /** The decode table and the first linear value that encodes above each code. */
  datatype Tables = Tables(decode: seq<nat>, thresholds: seq<nat>)

  /** Every decoded value lies between the thresholds on either side of its code, from 0 up. */
  predicate Pinned(t: Tables) {
    && |t.decode| == 256 && |t.thresholds| == 255 && t.decode[0] == 0
    && forall i, j :: 0 <= i && j == i + 1 < 256 ==> t.decode[i] < t.thresholds[i] <= t.decode[j]
  }

  /** How many leading thresholds lie at or below the value (`partition_point`). */
  function PartitionPoint(thresholds: seq<nat>, q: nat, from: nat := 0): (n: nat)
    requires from <= |thresholds|
    ensures from <= n <= |thresholds|
    ensures forall i :: from <= i < n ==> thresholds[i] <= q
    ensures n < |thresholds| ==> q < thresholds[n]
    decreases |thresholds| - from
  {
    if from < |thresholds| && thresholds[from] <= q then PartitionPoint(thresholds, q, from + 1) else from
  }

  function LinearToSrgb(t: Tables, q: nat): byte
    requires Pinned(t)
  {
    PartitionPoint(t.thresholds, q)
  }

  /** Linear light over black: the product with alpha, rounded. */
  function OverBlack(linear: nat, alpha: byte): nat {
    (linear * alpha + 127) / 255
  }

  function Fill(t: Tables, channel: byte, alpha: byte): byte
    requires Pinned(t)
  {
    LinearToSrgb(t, OverBlack(t.decode[channel], alpha))
  }

  /** The alpha of the pixel byte `k` belongs to. */
  function AlphaOf(straight: seq<byte>, k: nat): byte
    requires |straight| % 4 == 0 && k < |straight|
  {
    straight[k - k % 4 + 3]
  }

  function FillByte(t: Tables, straight: seq<byte>, k: nat): byte
    requires Pinned(t) && |straight| % 4 == 0 && k < |straight|
  {
    if k % 4 == 3 then 255 else Fill(t, straight[k], AlphaOf(straight, k))
  }

  function KeyByte(straight: seq<byte>, k: nat): byte
    requires |straight| % 4 == 0 && k < |straight|
  {
    if k % 4 == 3 then 255 else AlphaOf(straight, k)
  }

  /** Byte `c` of a pixel of the key, and of the fill. */
  lemma KeyOfByte(straight: seq<byte>, pixel: nat, c: nat)
    requires |straight| % 4 == 0 && 4 * pixel < |straight| && c < 4
    ensures 4 * pixel + 3 < |straight|
    ensures KeyByte(straight, 4 * pixel + c) == if c == 3 then 255 else straight[4 * pixel + 3]
  {
    assert (4 * pixel + c) % 4 == c;
  }

  lemma FillOfByte(t: Tables, straight: seq<byte>, pixel: nat, c: nat)
    requires Pinned(t) && |straight| % 4 == 0 && 4 * pixel < |straight| && c < 4
    ensures 4 * pixel + 3 < |straight|
    ensures FillByte(t, straight, 4 * pixel + c) ==
            if c == 3 then 255 else Fill(t, straight[4 * pixel + c], straight[4 * pixel + 3])
  {
    hide Fill, Pinned;
    assert (4 * pixel + c) % 4 == c;
  }

  function LengthError(straight: seq<byte>, length: nat): Option<AlphaExportError> {
    if |straight| % 4 != 0 || |straight| != length then Some(FrameLength((|straight| + 3) / 4 * 4, length)) else None
  }

  method DeriveBlackFill(t: Tables, straight: seq<byte>, output: array<byte>) returns (error: Option<AlphaExportError>)
    requires Pinned(t)
    modifies output
    ensures error == LengthError(straight, output.Length)
    ensures error.Some? ==> output[..] == old(output[..])
    ensures error.None? ==> forall k :: 0 <= k < output.Length ==> output[k] == FillByte(t, straight, k)
  {
    hide Fill, FillByte, Pinned;
    if |straight| % 4 != 0 || |straight| != output.Length {
      return Some(FrameLength((|straight| + 3) / 4 * 4, output.Length));
    }
    var pixel := 0;
    while 4 * pixel < |straight|
      invariant 0 <= 4 * pixel <= |straight| == output.Length
      invariant forall k :: 0 <= k < 4 * pixel ==> output[k] == FillByte(t, straight, k)
    {
      FillOfByte(t, straight, pixel, 3);
      var alpha := straight[4 * pixel + 3];
      var channel := 0;
      while channel < 3
        invariant 0 <= channel <= 3
        invariant forall k :: 0 <= k < 4 * pixel + channel ==> output[k] == FillByte(t, straight, k)
      {
        FillOfByte(t, straight, pixel, channel);
        output[4 * pixel + channel] := Fill(t, straight[4 * pixel + channel], alpha);
        channel := channel + 1;
      }
      output[4 * pixel + 3] := 255;
      pixel := pixel + 1;
    }
    return None;
  }

  method DeriveKey(straight: seq<byte>, output: array<byte>) returns (error: Option<AlphaExportError>)
    modifies output
    ensures error == LengthError(straight, output.Length)
    ensures error.Some? ==> output[..] == old(output[..])
    ensures error.None? ==> forall k :: 0 <= k < output.Length ==> output[k] == KeyByte(straight, k)
  {
    hide KeyByte;
    if |straight| % 4 != 0 || |straight| != output.Length {
      return Some(FrameLength((|straight| + 3) / 4 * 4, output.Length));
    }
    var pixel := 0;
    while 4 * pixel < |straight|
      invariant 0 <= 4 * pixel <= |straight| == output.Length
      invariant forall k :: 0 <= k < 4 * pixel ==> output[k] == KeyByte(straight, k)
    {
      KeyOfByte(straight, pixel, 3);
      var channel := 0;
      while channel < 3
        invariant 0 <= channel <= 3
        invariant forall k :: 0 <= k < 4 * pixel + channel ==> output[k] == KeyByte(straight, k)
      {
        KeyOfByte(straight, pixel, channel);
        output[4 * pixel + channel] := straight[4 * pixel + 3];
        channel := channel + 1;
      }
      output[4 * pixel + 3] := 255;
      pixel := pixel + 1;
    }
    return None;
  }

  // ------------------------------------------------------------------
  // Laws
  // ------------------------------------------------------------------

  lemma CodeBracketed(t: Tables, code: nat)
    requires Pinned(t) && code < 255
    ensures t.decode[code] < t.thresholds[code] <= t.decode[code + 1]
  {
    var next := code + 1;
    assert t.decode[code] < t.thresholds[code] <= t.decode[next];
  }

  lemma {:induction false} ThresholdsIncrease(t: Tables, i: nat, j: nat)
    requires Pinned(t) && i <= j < 255
    ensures t.thresholds[i] <= t.thresholds[j] && t.decode[i] <= t.decode[j]
    decreases j - i
  {
    if i < j {
      CodeBracketed(t, j - 1);
      CodeBracketed(t, j);
      ThresholdsIncrease(t, i, j - 1);
    }
  }

  /** The search counts every threshold at or below the value, not only the leading ones. */
  lemma SearchCounts(t: Tables, q: nat, i: nat)
    requires Pinned(t) && i < 255
    ensures t.thresholds[i] <= q <==> i < LinearToSrgb(t, q)
  {
    var n := PartitionPoint(t.thresholds, q);
    if n <= i {
      ThresholdsIncrease(t, n, i);
    }
  }

  lemma EncodingIsMonotone(t: Tables, p: nat, q: nat)
    requires Pinned(t) && p <= q
    ensures LinearToSrgb(t, p) <= LinearToSrgb(t, q)
  {
    var n := LinearToSrgb(t, p);
    if n > 0 {
      SearchCounts(t, p, n - 1);
      SearchCounts(t, q, n - 1);
    }
  }

  /** Encoding undoes decoding on every code. */
  lemma EncodingInvertsDecoding(t: Tables, code: byte)
    requires Pinned(t)
    ensures LinearToSrgb(t, t.decode[code]) == code
  {
    hide LinearToSrgb;
    var q := t.decode[code];
    if code > 0 {
      CodeBracketed(t, code - 1);
      SearchCounts(t, q, code - 1);
    }
    if code < 255 {
      CodeBracketed(t, code);
      SearchCounts(t, q, code);
    }
  }

  /** The product is within half a step of the exact linear light, and exact at the ends. */
  lemma OverBlackRounds(linear: nat, alpha: byte)
    ensures -127 <= 255 * OverBlack(linear, alpha) - linear * alpha <= 127
    ensures OverBlack(linear, 255) == linear && OverBlack(linear, 0) == 0
  {
  }

  lemma Product(p: nat, q: nat, a: nat, b: nat)
    requires p <= q && a <= b
    ensures p * a <= q * b
  {
    assert p * b == p * a + p * (b - a);
    assert q * b == p * b + (q - p) * b;
  }

  lemma OverBlackIsMonotone(p: nat, q: nat, a: byte, b: byte)
    requires p <= q && a <= b
    ensures OverBlack(p, a) <= OverBlack(q, b)
  {
    Product(p, q, a, b);
    var x, y := p * a, q * b;
    assert (x + 127) / 255 <= (y + 127) / 255;
  }

  lemma DecodingIsMonotone(t: Tables, c: byte, d: byte)
    requires Pinned(t) && c <= d
    ensures t.decode[c] <= t.decode[d]
  {
    if c < d {
      CodeBracketed(t, d - 1);
      ThresholdsIncrease(t, c, d - 1);
    }
  }

  /**
   What the fill of a channel is: itself when opaque, black when transparent, and growing
   with both channel and alpha in between.
   */
  lemma FillIsMonotone(t: Tables, c: byte, d: byte, a: byte, b: byte)
    requires Pinned(t) && c <= d && a <= b
    ensures Fill(t, c, 0) == 0 <= Fill(t, c, a) <= Fill(t, d, b) <= Fill(t, d, 255) == d
  {
    hide LinearToSrgb, OverBlack;
    DecodingIsMonotone(t, c, d);
    OverBlackIsMonotone(t.decode[c], t.decode[d], a, b);
    EncodingIsMonotone(t, OverBlack(t.decode[c], a), OverBlack(t.decode[d], b));
    OverBlackIsMonotone(t.decode[d], t.decode[d], b, 255);
    EncodingIsMonotone(t, OverBlack(t.decode[d], b), OverBlack(t.decode[d], 255));
    OverBlackRounds(t.decode[d], 255);
    OverBlackRounds(t.decode[c], 0);
    EncodingInvertsDecoding(t, d);
    EncodingInvertsDecoding(t, 0);
  }

  /** A fill image is never brighter than its source, black where the key is black, the source where it is white. */
  lemma FillUnderKey(t: Tables, straight: seq<byte>, k: nat)
    requires Pinned(t) && |straight| % 4 == 0 && k < |straight| && k % 4 != 3
    ensures FillByte(t, straight, k) <= straight[k]
    ensures KeyByte(straight, k) == 0 ==> FillByte(t, straight, k) == 0
    ensures KeyByte(straight, k) == 255 ==> FillByte(t, straight, k) == straight[k]
  {
    hide Fill, Pinned;
    var alpha := AlphaOf(straight, k);
    FillIsMonotone(t, straight[k], straight[k], alpha, alpha);
  }

  /** One byte of the fill: the code between whose thresholds the nearest value to channel times alpha lies. */
  lemma FillInNumbers(t: Tables, channel: byte, alpha: byte) returns (light: nat)
    requires Pinned(t)
    ensures -127 <= 255 * light - t.decode[channel] * alpha <= 127
    ensures forall i :: 0 <= i < 255 ==> (t.thresholds[i] <= light <==> i < Fill(t, channel, alpha))
  {
    hide LinearToSrgb, OverBlack;
    light := OverBlack(t.decode[channel], alpha);
    OverBlackRounds(t.decode[channel], alpha);
    forall i | 0 <= i < 255 ensures t.thresholds[i] <= light <==> i < Fill(t, channel, alpha) {
      SearchCounts(t, light, i);
    }
  }

  /** Buffers are refused when the source is no whole number of pixels or the output not as long; the error names the next whole length. */
  lemma LengthErrorIs(straight: seq<byte>, length: nat)
    ensures LengthError(straight, length).None? <==> |straight| % 4 == 0 && |straight| == length
    ensures LengthError(straight, length).Some? ==>
              var e := LengthError(straight, length).value;
              e.actual == length && e.expected % 4 == 0 && |straight| <= e.expected < |straight| + 4
  {
  }
}
