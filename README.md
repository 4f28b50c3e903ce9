# Timing side channel of a variable-time byte comparator

This project models `insecure_compare`, the leaky comparator at the centre of
the timing-attack demonstration. It compares a secret byte string with a probe.
It returns false at once when the lengths differ. Otherwise it walks both
strings in order and returns false at the first byte that differs. After each
byte that matches it sleeps for a fixed delay. It returns true only after every
byte has matched.

In the model the sleep is one counted delay step, and `InsecureCompare` returns
that count (`delays`) beside its boolean answer. It also returns how many byte
pairs it read (`examined`). The lemmas state what the count leaks:
- it equals the length of the prefix the probe shares with the secret;
- a probe that shares `k` bytes with the secret costs strictly more than one that
  does not;
- for the probe an attacker builds at position `p`, the true byte costs at least
  `p + 1` steps and every other byte exactly `p`;
- bytes after the first mismatch are never read.

Everything is in one module, `TimingAttack` (`timing_attack.dfy`). Bytes are the
newtype `byte` (0..255). The source's constants `SECRET_LEN = 6` and
`TRIALS_PER_CANDIDATE = 8` are the integer constants `SecretLen` and
`TrialsPerCandidate`. Nothing in the model uses them.

## Model

| member | source | states |
|---|---|---|
| `TimingAttack.InsecureCompare` | timing_attack/timing_attack.py:7-14 | the result is true exactly when secret and probe are equal; on a length mismatch no delay is taken and no byte is read; otherwise the delay count is `Delays` (the matched-prefix length) and the number of pairs read is `Examined`; on a true result both equal the secret's length |
| `TimingAttack.CommonPrefix` | timing_attack/timing_attack.py:10-12 | the number of pairs `zip` lets the loop match is bounded by both lengths |
| `TimingAttack.CommonPrefixStops` | timing_attack/timing_attack.py:10-12 | the bytes the loop walks past before stopping: the two strings agree on the first `CommonPrefix` bytes, and there one has ended or they differ |
| `TimingAttack.CommonPrefixUnique` | timing_attack/timing_attack.py:10-12 | any `k` where the strings agree below `k` and differ at `k` (or one ends there) is the matched-prefix length, so the loop's stopping point is well defined |
| `TimingAttack.SharedPrefixAtMostCommon` | timing_attack/timing_attack.py:10-13 | every prefix the two strings share is no longer than the matched prefix |
| `TimingAttack.Delays` | timing_attack/timing_attack.py:8-13 | the delay count never exceeds the secret's length, and it is zero when the lengths differ |
| `TimingAttack.Examined` | timing_attack/timing_attack.py:10-12 | the loop reads at most as many pairs as the secret has bytes, and either reads none or reads the matched pairs plus at most one more |
| `TimingAttack.FullDelaysIffEqual` | timing_attack/timing_attack.py:10-14 | for a probe of the right length, the delay count reaches the secret's length if and only if the probe equals the secret |
| `TimingAttack.StopsAtFirstMismatch` | timing_attack/timing_attack.py:10-12 | when the first difference is at index `i`, exactly `i` delays are taken and exactly `i + 1` pairs are read |
| `TimingAttack.LaterBytesIgnored` | timing_attack/timing_attack.py:10-12 | two probes that agree up to and including the first mismatch take the same delays and read the same pairs: nothing after the mismatch is examined |
| `TimingAttack.SharedPrefixCosts` | timing_attack/timing_attack.py:10-13 | a probe that agrees with the secret on its first `k` bytes takes at least `k` delays |
| `TimingAttack.LongerPrefixCostsMore` | timing_attack/timing_attack.py:11-13 | the side channel: of two probes of the right length, the one that shares the first `k` bytes with the secret takes strictly more delays than one that does not |
| `TimingAttack.MoreDelaysMeansLongerPrefix` | timing_attack/timing_attack.py:11-13 | conversely, a strictly larger delay count means the costlier probe shares a prefix with the secret that the cheaper one does not |
| `TimingAttack.CandidateCost` | timing_attack/timing_attack.py:10-13 | a probe with the correct first `p` bytes and candidate `c` at `p`: the true byte costs at least `p + 1` delays, every other byte exactly `p` |
| `TimingAttack.TrueCandidateWins` | timing_attack/timing_attack.py:10-13 | with the first `p` bytes correct, the true byte at `p` takes strictly more delays than any wrong byte, whatever follows |
| `TimingAttack.ExaminedBounds` | timing_attack/timing_attack.py:10-14 | the loop runs at most secret-length times, exactly that many on a true result, and one more than the delay count on a false result for equal lengths |

## Left out

- `secure_compare` (timing_attack/timing_attack.py:16-17): it only calls `hmac.compare_digest`, whose constant-time implementation is not part of this model.
- `time_call` (timing_attack/timing_attack.py:19-23): it reads a wall clock, which is I/O with floating-point results.
- `PER_BYTE_DELAY = 0.001` and the real `time.sleep`: wall-clock time in floating-point seconds. Each sleep is one abstract delay step; total time is not modelled.
- The `secrets` and `statistics` imports: random secret generation and averaging of float timings.
- The statistical attack engine and the experiment driver are not part of this model; their source is not among the modelled files. The candidate-probe lemmas state, for any probe with a correct prefix, what a noise-free measurement would show.
