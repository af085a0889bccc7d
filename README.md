# Proof-of-work search of lvj-image-cli, in Dafny

This project models the proof-of-work core of the image uploader:
`ImageUploader.find_suffix` in `upload_image.py`. Before an upload, the
server sends a hex prefix and a difficulty N. The client looks for a 64-byte
suffix such that the SHA-256 digest of the prefix bytes followed by the
suffix bytes starts with N zero bits. It then sends the suffix as hex.

Modules:

- `PyValues` (PyValues.dfy): bytes (`bv8`), the two Python exceptions the
  core can raise (`IndexError`, `ValueError`), `Option`/`Result`, and the
  32-byte `Digest` and 64-byte `Candidate` types.
- `Difficulty` (Difficulty.dfy): `is_valid_hash`. `IsValidHash` is the
  source's loop over the N / 8 whole bytes followed by the masked byte. It is
  proved equal to `HashCheck`. `HashCheck` is the bit predicate "the first N
  bits, MSB first within each byte, are zero", together with the source's
  behaviour past the end of the digest. There, the check returns False at the
  first non-zero byte, and raises IndexError when every byte is zero.
- `Hex` (Hex.dfy): `bytes.hex()` as `ToHex` and `bytes.fromhex` as
  `FromHex`. `FromHex` reads digits of either case and skips ASCII whitespace
  before a pair of digits, never inside one. On anything else it fails
  (ValueError). The module proves the round trip and that decoding
  `pref + suff` gives the prefix bytes followed by the suffix bytes.
- `Search` (Search.dfy): `worker`, the `num_workers` expression and
  `find_suffix`. The random draws are a given sequence of candidates.
  SHA-256 is a parameter `sha256: seq<bv8> -> Digest`. One worker runs
  alone and sequentially.

Two behaviours of the code are modelled as written. The code computes 0
workers on a one-CPU machine and then returns `""` (`NumWorkers`,
`FindSuffix`). It has no guard for N above 256: the worker never accepts and
keeps drawing (`UnsatisfiableNeverAccepts`), unless the digest is all zero,
where `is_valid_hash` raises IndexError (`IsValidHash`).

## Model

| member | source | states |
|---|---|---|
| `Difficulty.HashCheck` | upload_image.py:59-72 | the value of `is_valid_hash`: True exactly when n fits in the digest and its first n bits are zero; the only exception is IndexError, raised exactly when n exceeds the digest and every byte is zero |
| `Difficulty.Mask` | upload_image.py:66-70 | `(0xFF << (8 - r)) & 0xFF` for 1 <= r <= 7 is the byte whose top r bits, and only those, are set (0xE0 for r = 3) |
| `Difficulty.ByteZeroIffNoBitSet` | upload_image.py:61-63 | a byte is 0 exactly when none of its eight bits is set, so the whole-byte test `hash_bytes[i] != 0` tests eight bits of the digest |
| `Difficulty.MaskedByteZero` | upload_image.py:68-70 | `b & mask == 0` holds exactly when the top r bits of b are zero; the low 8 - r bits are unconstrained |
| `Difficulty.ByteView` | upload_image.py:59-72 | within the digest, "first n bits zero" is equivalent to "bytes 0..n/8-1 are zero and, when n % 8 > 0, byte n/8 masked by the remaining bits is zero" |
| `Difficulty.NonZeroWholeByteRejects` | upload_image.py:61-63 | a non-zero byte among the first n/8 makes the check answer False, also when n exceeds the digest length |
| `Difficulty.IsValidHash` | upload_image.py:49-72 | the loop-and-mask method returns True exactly when the first n bits of the digest are zero (for n <= 8·len); for larger n it returns False when some byte is non-zero and raises IndexError when every byte is zero |
| `Difficulty.ZeroDifficultyAccepts` | upload_image.py:59-72 | difficulty 0 accepts every digest |
| `Difficulty.AcceptanceMonotone` | upload_image.py:59-72 | acceptance at n implies n <= 8·len and acceptance at every m <= n |
| `Difficulty.WholeByteDifficulty` | upload_image.py:59-72 | when n is a multiple of 8 the answer is "bytes 0..n/8-1 are zero", so two digests agreeing on those bytes get the same answer |
| `Difficulty.ElevenBits` | upload_image.py:59-70 | at difficulty 11 the answer is "byte 0 is zero and byte 1 & 0xE0 is zero"; the rest of byte 1 and later bytes are free |
| `Hex.DigitValue` | upload_image.py:86 | a character `bytes.fromhex` accepts as a digit has a value below 16 and is not whitespace |
| `Hex.HexDigit` | upload_image.py:82 | the digit `bytes.hex()` writes for a nibble is lower-case hex and reads back as that nibble |
| `Hex.ByteToHex` | upload_image.py:82 | one byte becomes two lower-case digits whose values are its high and low nibble |
| `Hex.ToHex` | upload_image.py:82 | `bytes.hex()` yields two lower-case hex digits per byte |
| `Hex.FromHex` | upload_image.py:86 | `bytes.fromhex` yields at most one byte per two characters |
| `Hex.DecodePair` | upload_image.py:86 | text starting with two hex digits decodes to their byte followed by the decoding of the rest, and fails when the rest fails |
| `Hex.ByteRoundTrip` | upload_image.py:82-86 | the two digits written for a byte decode back to that byte |
| `Hex.RoundTrip` | upload_image.py:82-86 | `bytes.fromhex(bs.hex()) == bs` for every byte string |
| `Hex.AppendDecodes` | upload_image.py:85-86 | if `bytes.fromhex(p)` succeeds, `bytes.fromhex(p + t)` is its bytes followed by those of t, and fails exactly when t alone fails |
| `Hex.EvenHexDecodes` | upload_image.py:85-86 | an even-length string of hex digits decodes, to half as many bytes |
| `Hex.PrefixedSuffixDecodes` | upload_image.py:82-86 | for a prefix that decodes, `bytes.fromhex(pref + suffix.hex())` is the prefix bytes followed by the suffix bytes |
| `Hex.CandidateHex` | upload_image.py:82 | a 64-byte candidate's hex is 128 lower-case hex digits that decode to the same 64 bytes |
| `Search.Verdict` | upload_image.py:82-89 | one pass of the worker loop on a candidate: accepts exactly when `fromhex(pref + hex(c))` decodes and its digest has n leading zero bits; raises ValueError exactly when that text does not decode |
| `Search.ProgressPoints` | upload_image.py:92-94 | after k rejected attempts, k / 10000 progress lines have been printed, the i-th at attempt (i + 1)·10000 |
| `Search.ProgressMembers` | upload_image.py:92-94 | a progress line is printed at attempt x exactly when 1 <= x <= attempts and x % 10000 == 0 |
| `Search.Worker` | upload_image.py:74-94 | the worker rejects candidates 0..attempts-1; it returns the hex of candidate `attempts` only when that candidate is accepted, raises only that candidate's exception, and reports no answer only when every given candidate is rejected; the progress record is exactly one entry per multiple of 10000 up to `attempts`, in increasing order |
| `Search.AcceptedIsProofOfWork` | upload_image.py:84-90 | an accepted candidate has n <= 256 and the digest of the raw prefix bytes followed by the raw candidate bytes starts with n zero bits |
| `Search.ValidChallengeNeverRaises` | upload_image.py:84-90 | with a decodable prefix and n <= 256 the worker never raises: its verdict is exactly the bit predicate on the digest of prefix bytes followed by candidate bytes |
| `Search.UnsatisfiableNeverAccepts` | upload_image.py:59-72 | for n > 256 no candidate is ever accepted |
| `Search.CpuCountOr5` | upload_image.py:101 | `os.cpu_count() or 5` is at least 1, keeps a known non-zero count, and is 5 exactly when the count is unknown, 0 or 5 |
| `Search.NumWorkers` | upload_image.py:101 | `min(32, (cpu_count or 5) - 1)` is the known count minus one for 1 to 33 CPUs and 32 from 33 CPUs on, so at most 32 and below a known non-zero count; 4 when the count is unknown; 0 exactly when the count is 1 |
| `Search.FindSuffix` | upload_image.py:96-110 | returns `""` exactly when there are no workers; any other returned suffix is 128 hex characters, the hex of the first accepted candidate, and `fromhex(pref + suff)` hashes to a digest with n leading zero bits; an exception comes from the first candidate that is not rejected |

## Left out

- `get_challenge`, `upload_image`, `process_file` and `main`: HTTP requests, JSON parsing, file checks, argument parsing, `sys.exit` and printing around the core.
- `ThreadPoolExecutor`, `as_completed` and the race between workers: the model runs one worker sequentially.
- FindSuffix: runs worker 0 alone on the given candidates. The race that decides which of several workers answers first is not modelled.
- FindSuffix: the source never cancels the other workers. `return suff` sits inside the `with ThreadPoolExecutor()` block, and leaving that block waits for every submitted worker to return. So the first suffix comes back only once every worker has finished, with a suffix of its own or with an exception. The model has one worker and no pool, so this wait is not captured.
- `random.seed(os.urandom(4) + ...)` and `random.randint`: the candidates are a given sequence of 64-byte values.
- The body of SHA-256: a parameter function returning 32 bytes.
- Worker: the source loops forever. The model stops when the given candidates run out and reports that no answer was found.
- Worker: the text of the progress line and the worker id it names. The model records only the attempt counts at which a line is printed.
- Negative difficulties: N is taken as a natural number, as the server sends it. Python would index from the end of the digest for a negative N.
- The `success` flag of the worker's result: the worker only ever returns `True`, so the model drops the flag.
- The unused `task_id` parameter of `find_suffix` and its console messages.
