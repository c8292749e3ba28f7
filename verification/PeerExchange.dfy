// How many peers a node names when asked for peers (src/p2p.js, `_handleGetPeersRequest`), and the
// length check of the asking node (src/validation.js, `validatePeersInfoList`).
module PeerExchange {
  import opened Selection

  const DEFAULT_MIN_PEER_DISCOVERY_THRESHOLD: nat := 100
  const DEFAULT_MAX_PEER_DISCOVERY_RESPONSE_LENGTH: nat := 100

  // A setting that is missing or zero is replaced by its default.
  function ThresholdOf(configured: nat): (n: nat)
    ensures n >= 1 && (configured != 0 ==> n == configured)
  {
    if configured == 0 then DEFAULT_MIN_PEER_DISCOVERY_THRESHOLD else configured
  }

  function ResponseLengthOf(configured: nat): (n: nat)
    ensures n >= 1 && (configured != 0 ==> n == configured)
  {
    if configured == 0 then DEFAULT_MAX_PEER_DISCOVERY_RESPONSE_LENGTH else configured
  }

  function Ceil(x: real): int {
    -((-x).Floor)
  }

  function RealMin(x: real, y: real): real {
    if x <= y then x else y
  }

  function LowCount(known: nat, responseLength: nat): int {
    Ceil(RealMin(responseLength as real, known as real * 0.25))
  }

  function HighCount(known: nat, responseLength: nat): int {
    RealMin(responseLength as real, known as real * 0.5).Floor
  }

  // The number of peers to pick; `draw` is the value of `Math.random()`.
  function PickCount(known: nat, threshold: nat, responseLength: nat, draw: real): int {
    var min, max := LowCount(known, responseLength), HighCount(known, responseLength);
    var random := (draw * (max - min + 1) as real + min as real).Floor;
    Max(random, Min(threshold, known))
  }

  // The length of the response: the shuffled list of known peers is cut at the count.
  function ResponseLength(known: nat, threshold: nat, responseLength: nat, draw: real): int {
    Min(PickCount(known, threshold, responseLength, draw), known)
  }

  predicate AcceptedLength(length: int, maxPeerInfoListLength: nat) {
    length <= maxPeerInfoListLength
  }

  lemma CountRange(known: nat, responseLength: nat)
    requires responseLength >= 1
    ensures var min, max := LowCount(known, responseLength), HighCount(known, responseLength);
      && 0 <= min <= max + 1 && max <= responseLength && max <= known && min <= responseLength && min <= known
      && (min == max + 1 ==> known == 1)
  {
    CeilOfQuarter(known);
    HalfFloor(known);
    var q, h := known as real * 0.25, known as real * 0.5;
    assert LowCount(known, responseLength) == Min(responseLength, (known + 3) / 4);
    assert HighCount(known, responseLength) == Min(responseLength, known / 2);
  }

  lemma CeilOfQuarter(n: nat)
    ensures Ceil(n as real * 0.25) == (n + 3) / 4
  {
    var k := (n + 3) / 4;
    assert (4 * k - 4) as real < n as real <= (4 * k) as real;
    var x := -(n as real * 0.25);
    assert (-k) as real <= x < (-k + 1) as real;
  }

  lemma HalfFloor(n: nat)
    ensures (n as real * 0.5).Floor == n / 2
  {
    var k := n / 2;
    assert (2 * k) as real <= n as real < (2 * k + 2) as real;
    var x := n as real * 0.5;
    assert k as real <= x < (k + 1) as real;
  }

  lemma DrawRange(min: int, max: int, draw: real)
    requires 0.0 <= draw < 1.0 && min <= max + 1
    ensures var random := (draw * (max - min + 1) as real + min as real).Floor;
      min <= random <= Max(min, max)
  {
    var w := (max - min + 1) as real;
    if w > 0.0 {
      assert 0.0 <= draw * w < w;
    } else {
      assert draw * w == 0.0;
    }
  }

  // Whatever is drawn, the response names at least min(threshold, known) peers and at most
  // min(known, max(response length, threshold)).
  lemma ResponseBounds(known: nat, threshold: nat, responseLength: nat, draw: real)
    requires responseLength >= 1 && 0.0 <= draw < 1.0
    ensures var n := ResponseLength(known, threshold, responseLength, draw);
      Min(threshold, known) <= n <= Min(known, Max(responseLength, threshold))
  {
    hide LowCount, HighCount;
    var min, max := LowCount(known, responseLength), HighCount(known, responseLength);
    CountRange(known, responseLength);
    DrawRange(min, max, draw);
    var random := (draw * (max - min + 1) as real + min as real).Floor;
    assert PickCount(known, threshold, responseLength, draw) == Max(random, Min(threshold, known));
    assert random <= responseLength;
  }

  // The response exactly: between low, a quarter of the known peers rounded up, and high, half of them rounded down,
  // both cut at the response length, the draw picks r; the threshold may raise it, and there is no more than is known.
  lemma ResponseIs(known: nat, threshold: nat, responseLength: nat, draw: real, low: int, high: int, r: int)
    requires responseLength >= 1 && 0.0 <= draw < 1.0
    requires known >= 4 * responseLength ==> low == responseLength
    requires known < 4 * responseLength ==> 4 * low - 3 <= known <= 4 * low
    requires known >= 2 * responseLength ==> high == responseLength
    requires known < 2 * responseLength ==> 2 * high <= known <= 2 * high + 1
    requires r as real <= draw * (high - low + 1) as real + low as real < (r + 1) as real
    ensures ResponseLength(known, threshold, responseLength, draw) == Min(Max(r, Min(threshold, known)), known)
  {
    hide LowCount, HighCount;
    LowIs(known, responseLength, low);
    HighIs(known, responseLength, high);
    FloorIs(draw * (high - low + 1) as real + low as real, r);
  }

  lemma FloorIs(x: real, r: int)
    requires r as real <= x < (r + 1) as real
    ensures x.Floor == r
  {}

  lemma LowIs(known: nat, responseLength: nat, low: int)
    requires known >= 4 * responseLength ==> low == responseLength
    requires known < 4 * responseLength ==> 4 * low - 3 <= known <= 4 * low
    ensures LowCount(known, responseLength) == low
  {
    CeilOfQuarter(known);
    assert known as real * 0.25 >= responseLength as real <==> known >= 4 * responseLength;
  }

  lemma HighIs(known: nat, responseLength: nat, high: int)
    requires known >= 2 * responseLength ==> high == responseLength
    requires known < 2 * responseLength ==> 2 * high <= known <= 2 * high + 1
    ensures HighCount(known, responseLength) == high
  {
    HalfFloor(known);
    assert known as real * 0.5 >= responseLength as real <==> known >= 2 * responseLength;
  }

  // From four times as many known peers as the response length on, nothing is left to the draw.
  lemma FullResponse(known: nat, threshold: nat, responseLength: nat, draw: real)
    requires responseLength >= 1 && 0.0 <= draw < 1.0 && known >= 4 * responseLength
    ensures ResponseLength(known, threshold, responseLength, draw) == Max(responseLength, Min(threshold, known))
  {
    CeilOfQuarter(known);
    HalfFloor(known);
    assert known as real * 0.25 >= responseLength as real;
    assert LowCount(known, responseLength) == responseLength == HighCount(known, responseLength);
    DrawRange(responseLength, responseLength, draw);
  }

  // A node never rejects the response for its length, whatever the answering node knows and draws,
  // exactly when its maximum is at least both the response length and the threshold of the answering
  // node. The default settings are all equal.
  lemma NeverRejectedIff(threshold: nat, responseLength: nat, maxPeerInfoListLength: nat)
    requires responseLength >= 1
    ensures (forall known: nat, draw: real | 0.0 <= draw < 1.0 ::
               AcceptedLength(ResponseLength(known, threshold, responseLength, draw), maxPeerInfoListLength))
       <==> maxPeerInfoListLength >= Max(responseLength, threshold)
  {
    if maxPeerInfoListLength >= Max(responseLength, threshold) {
      forall known: nat, draw: real | 0.0 <= draw < 1.0
        ensures AcceptedLength(ResponseLength(known, threshold, responseLength, draw), maxPeerInfoListLength)
      {
        ResponseBounds(known, threshold, responseLength, draw);
      }
    } else {
      var known := if maxPeerInfoListLength < threshold then threshold else 4 * responseLength;
      ResponseBounds(known, threshold, responseLength, 0.0);
      FullResponse(4 * responseLength, threshold, responseLength, 0.0);
      assert !AcceptedLength(ResponseLength(known, threshold, responseLength, 0.0), maxPeerInfoListLength);
    }
  }

  // With default settings the node names all peers it knows, or 100 of them whatever is drawn, and with default
  // settings on both sides nothing is rejected.
  lemma DefaultsAccepted(known: nat, draw: real)
    requires 0.0 <= draw < 1.0
    ensures ResponseLength(known, ThresholdOf(0), ResponseLengthOf(0), draw) == if known <= 100 then known else 100
    ensures AcceptedLength(ResponseLength(known, ThresholdOf(0), ResponseLengthOf(0), draw),
                           DEFAULT_MAX_PEER_DISCOVERY_RESPONSE_LENGTH)
  {
    ResponseBounds(known, ThresholdOf(0), ResponseLengthOf(0), draw);
    NeverRejectedIff(ThresholdOf(0), ResponseLengthOf(0), DEFAULT_MAX_PEER_DISCOVERY_RESPONSE_LENGTH);
  }
}
