/**
 * A model of the variable-time byte comparator of the timing-attack
 * demonstration, with the per-byte sleep replaced by a counted delay step.
 *
 * The comparator answers "are these two byte strings equal?", but the number
 * of delay steps it takes before answering is the length of the prefix the
 * probe shares with the secret. That count is the side channel an attacker
 * measures; the lemmas below state exactly what it reveals.
 */
module TimingAttack {

  /** A Python `bytes` element. */
  newtype byte = x: int | 0 <= x < 256

  /** Length of the generated secret, in bytes. */
  const SecretLen: nat := 6

  /** Number of timed trials an attacker averages per candidate byte. */
  const TrialsPerCandidate: nat := 8

  /** `a` and `b` agree on their first `k` bytes. */
  predicate SharesPrefix(a: seq<byte>, b: seq<byte>, k: nat)
  {
    k <= |a| && k <= |b| && a[..k] == b[..k]
  }

  /** Length of the longest common prefix of `a` and `b`. */
  function CommonPrefix(a: seq<byte>, b: seq<byte>): (n: nat)
    ensures n <= |a| && n <= |b|
  {
    if |a| == 0 || |b| == 0 || a[0] != b[0] then 0
    else 1 + CommonPrefix(a[1..], b[1..])
  }

  /**
   * CommonPrefix is a common prefix at which the walk must stop: the two
   * strings agree below it, and at it one has ended or they differ.
   */
  lemma {:induction false} CommonPrefixStops(a: seq<byte>, b: seq<byte>)
    ensures SharesPrefix(a, b, CommonPrefix(a, b))
    ensures CommonPrefix(a, b) < |a| && CommonPrefix(a, b) < |b| ==>
              a[CommonPrefix(a, b)] != b[CommonPrefix(a, b)]
  {
    if |a| == 0 || |b| == 0 || a[0] != b[0] {
    } else {
      CommonPrefixStops(a[1..], b[1..]);
      var m := CommonPrefix(a[1..], b[1..]);
      assert a[..m + 1] == [a[0]] + a[1..][..m];
      assert b[..m + 1] == [b[0]] + b[1..][..m];
    }
  }

  /** Every shared prefix is at most as long as the longest one. */
  lemma {:induction false} SharedPrefixAtMostCommon(a: seq<byte>, b: seq<byte>, k: nat)
    requires SharesPrefix(a, b, k)
    ensures k <= CommonPrefix(a, b)
  {
    if k > 0 {
      assert a[0] == a[..k][0] == b[..k][0] == b[0];
      assert a[1..][..k - 1] == a[..k][1..] == b[..k][1..] == b[1..][..k - 1];
      SharedPrefixAtMostCommon(a[1..], b[1..], k - 1);
    }
  }

  /** The stopping point is unique: it is determined by the two strings. */
  lemma CommonPrefixUnique(a: seq<byte>, b: seq<byte>, k: nat)
    requires SharesPrefix(a, b, k)
    requires k < |a| && k < |b| ==> a[k] != b[k]
    ensures CommonPrefix(a, b) == k
  {
    SharedPrefixAtMostCommon(a, b, k);
    CommonPrefixStops(a, b);
  }

  /**
   * Number of delay steps `insecure_compare(secret, probe)` takes: none when
   * the lengths differ, otherwise one per matched byte.
   */
  function Delays(secret: seq<byte>, probe: seq<byte>): (d: nat)
    ensures d <= |secret|
    ensures |probe| != |secret| ==> d == 0
  {
    if |probe| != |secret| then 0 else CommonPrefix(secret, probe)
  }

  /**
   * Number of byte pairs `insecure_compare(secret, probe)` reads: none when
   * the lengths differ, the matched prefix plus the first mismatching pair
   * otherwise.
   */
  function Examined(secret: seq<byte>, probe: seq<byte>): (e: nat)
    ensures e <= |secret|
    ensures e == 0 || e - 1 <= Delays(secret, probe) <= e
  {
    if |probe| != |secret| then 0
    else
      var n := CommonPrefix(secret, probe);
      if n == |secret| then n else n + 1
  }

  /**
   * The variable-time comparator. Returns the boolean answer together with
   * the number of delay steps taken (one per matched byte, where the source
   * sleeps) and the number of byte pairs read before returning.
   */
  method InsecureCompare(secret: seq<byte>, probe: seq<byte>)
    returns (equal: bool, delays: nat, examined: nat)
    ensures equal <==> secret == probe
    ensures |probe| != |secret| ==> delays == 0 && examined == 0
    ensures delays == Delays(secret, probe)
    ensures examined == Examined(secret, probe)
    ensures equal ==> delays == examined == |secret|
  {
    if |probe| != |secret| {
      return false, 0, 0;
    }
    var i := 0;
    delays, examined := 0, 0;
    while i < |secret|
      invariant i <= |secret|
      invariant SharesPrefix(secret, probe, i)
      invariant delays == examined == i
    {
      examined := examined + 1;
      if secret[i] != probe[i] {
        CommonPrefixUnique(secret, probe, i);
        return false, delays, examined;
      }
      assert secret[..i + 1] == secret[..i] + [secret[i]];
      assert probe[..i + 1] == probe[..i] + [probe[i]];
      delays := delays + 1;
      i := i + 1;
    }
    assert secret == secret[..i] && probe == probe[..i];
    CommonPrefixUnique(secret, probe, i);
    return true, delays, examined;
  }

  /**
   * For probes of the right length, the full delay count is reached exactly
   * when the probe is the secret.
   */
  lemma FullDelaysIffEqual(secret: seq<byte>, probe: seq<byte>)
    requires |probe| == |secret|
    ensures Delays(secret, probe) == |secret| <==> secret == probe
  {
    CommonPrefixStops(secret, probe);
    if Delays(secret, probe) == |secret| {
      assert secret == secret[..|secret|] && probe == probe[..|probe|];
    }
    if secret == probe {
      assert SharesPrefix(secret, probe, |secret|);
      SharedPrefixAtMostCommon(secret, probe, |secret|);
    }
  }

  /** The comparator decides at the first mismatch and reads nothing past it. */
  lemma StopsAtFirstMismatch(secret: seq<byte>, probe: seq<byte>, i: nat)
    requires |probe| == |secret|
    requires SharesPrefix(secret, probe, i)
    requires i < |secret| && secret[i] != probe[i]
    ensures Delays(secret, probe) == i
    ensures Examined(secret, probe) == i + 1
  {
    CommonPrefixUnique(secret, probe, i);
  }

  /**
   * Bytes after the first mismatch cannot influence the comparator: two
   * probes that agree up to and including it take the same number of delay
   * steps and read the same number of byte pairs.
   */
  lemma LaterBytesIgnored(secret: seq<byte>, probe: seq<byte>, other: seq<byte>)
    requires |probe| == |secret| == |other|
    requires CommonPrefix(secret, probe) < |secret|
    requires SharesPrefix(probe, other, CommonPrefix(secret, probe) + 1)
    ensures other != secret
    ensures Delays(secret, other) == Delays(secret, probe)
    ensures Examined(secret, other) == Examined(secret, probe)
  {
    CommonPrefixStops(secret, probe);
    var i := CommonPrefix(secret, probe);
    assert other[..i] == other[..i + 1][..i] == probe[..i + 1][..i] == probe[..i];
    assert other[i] == other[..i + 1][i] == probe[..i + 1][i] == probe[i];
    StopsAtFirstMismatch(secret, other, i);
  }

  /** Every probe that agrees with the secret on `k` bytes costs at least `k` delays. */
  lemma SharedPrefixCosts(secret: seq<byte>, probe: seq<byte>, k: nat)
    requires |probe| == |secret|
    requires SharesPrefix(secret, probe, k)
    ensures k <= Delays(secret, probe)
  {
    SharedPrefixAtMostCommon(secret, probe, k);
  }

  /**
   * The side channel: among probes of the right length, one that shares the
   * first `k` bytes with the secret takes strictly more delay steps than one
   * that does not.
   */
  lemma LongerPrefixCostsMore(secret: seq<byte>, p1: seq<byte>, p2: seq<byte>, k: nat)
    requires |p1| == |p2| == |secret|
    requires SharesPrefix(secret, p2, k)
    requires !SharesPrefix(secret, p1, k)
    ensures Delays(secret, p1) < Delays(secret, p2)
  {
    SharedPrefixAtMostCommon(secret, p2, k);
    CommonPrefixStops(secret, p1);
  }

  /**
   * Conversely, a strictly larger delay count is only ever caused by a
   * strictly longer shared prefix.
   */
  lemma MoreDelaysMeansLongerPrefix(secret: seq<byte>, p1: seq<byte>, p2: seq<byte>)
    requires |p1| == |p2| == |secret|
    requires Delays(secret, p1) < Delays(secret, p2)
    ensures SharesPrefix(secret, p2, Delays(secret, p2))
    ensures !SharesPrefix(secret, p1, Delays(secret, p2))
  {
    CommonPrefixStops(secret, p2);
    if SharesPrefix(secret, p1, Delays(secret, p2)) {
      SharedPrefixAtMostCommon(secret, p1, Delays(secret, p2));
    }
  }

  /**
   * The attacker's probe for position `p`: correct bytes before `p`,
   * candidate `c` at `p`, anything after. The true byte costs at least
   * `p + 1` delays; every other byte costs exactly `p`.
   */
  lemma CandidateCost(secret: seq<byte>, probe: seq<byte>, p: nat)
    requires |probe| == |secret| && p < |secret|
    requires SharesPrefix(secret, probe, p)
    ensures probe[p] == secret[p] ==> p + 1 <= Delays(secret, probe)
    ensures probe[p] != secret[p] ==> Delays(secret, probe) == p
  {
    if probe[p] == secret[p] {
      assert secret[..p + 1] == secret[..p] + [secret[p]];
      assert probe[..p + 1] == probe[..p] + [probe[p]];
      SharedPrefixCosts(secret, probe, p + 1);
    } else {
      StopsAtFirstMismatch(secret, probe, p);
    }
  }

  /**
   * Hence, without measurement noise, the true byte at position `p` is the
   * unique candidate with the greatest delay count.
   */
  lemma TrueCandidateWins(secret: seq<byte>, right: seq<byte>, wrong: seq<byte>, p: nat)
    requires |right| == |wrong| == |secret| && p < |secret|
    requires SharesPrefix(secret, right, p) && SharesPrefix(secret, wrong, p)
    requires right[p] == secret[p] && wrong[p] != secret[p]
    ensures Delays(secret, wrong) < Delays(secret, right)
  {
    CandidateCost(secret, right, p);
    CandidateCost(secret, wrong, p);
  }

  /** The loop runs at most `|secret|` times, and all of them on a match. */
  lemma ExaminedBounds(secret: seq<byte>, probe: seq<byte>)
    ensures Examined(secret, probe) <= |secret|
    ensures secret == probe ==> Examined(secret, probe) == |secret|
    ensures |probe| == |secret| && secret != probe ==> Examined(secret, probe) == Delays(secret, probe) + 1
  {
    if |probe| == |secret| {
      FullDelaysIffEqual(secret, probe);
    }
  }
}
