/** The search of `ImageUploader.find_suffix`: the `worker` loop and the
    choice of the number of workers. The worker draws a 64-byte candidate,
    appends its hex to the server's hex prefix, decodes the whole text,
    hashes it with SHA-256 and tests the digest with `is_valid_hash`; it
    returns the candidate's hex on success and otherwise counts the attempt,
    reporting progress every 10000 attempts.

    Here the random draws are a given sequence of candidates, SHA-256 is the
    parameter `sha256`, and one worker runs alone. The source's worker never
    stops on its own; when the given candidates run out the model reports
    that the search is still going. */
module Search {
  import opened PyValues
  import opened Hex
  import opened Difficulty

  /** The worker reports progress each time its attempt count reaches a
      multiple of this. */
  const ProgressInterval: nat := 10000

  /** What one pass of the worker's loop concludes about candidate c:
      ValueError when the prefix and the candidate's hex do not decode,
      otherwise the verdict of `is_valid_hash` on the digest. */
  function Verdict(pref: string, n: nat, sha256: seq<byte> -> Digest, c: Candidate): (r: Result<bool>)
    ensures r == Ok(true) <==> Solves(pref, n, sha256, ToHex(c))
    ensures r == Err(ValueError) <==> FromHex(pref + ToHex(c)).None?
  {
    match FromHex(pref + ToHex(c))
    case None => Err(ValueError)
    case Some(m) => HashCheck(sha256(m), n)
  }

  /** The proof of work a server can check for the suffix text `suff`:
      `bytes.fromhex(pref + suff)` decodes and its digest starts with n zero
      bits. */
  predicate Solves(pref: string, n: nat, sha256: seq<byte> -> Digest, suff: string)
  {
    match FromHex(pref + suff)
    case None => false
    case Some(m) => n <= 8 * |sha256(m)| && LeadingZeroBits(sha256(m), n)
  }

  /** The attempt counts at which a worker that has made `attempts` rejected
      attempts has reported progress, in order. */
  function ProgressPoints(attempts: nat): (ps: seq<nat>)
    ensures |ps| == attempts / ProgressInterval
    ensures forall i :: 0 <= i < |ps| ==> ps[i] == (i + 1) * ProgressInterval
  {
    if attempts == 0 then []
    else if attempts % ProgressInterval == 0 then ProgressPoints(attempts - 1) + [attempts]
    else ProgressPoints(attempts - 1)
  }

  datatype WorkerResult =
    | Found(suff: string)      // `return True, suff`
    | WorkerRaised(error: Error)  // an exception escapes the worker
    | CandidatesExhausted      // no accepted candidate among those given

  /** `worker`: tries the candidates in order. It returns the hex of the
      first candidate whose verdict is not a rejection: that candidate's hex
      when accepted, the exception when one is raised. `attempts` counts the
      rejected candidates before it, and `progress` lists the attempt counts
      at which a progress line is printed. */
  method Worker(pref: string, n: nat, sha256: seq<byte> -> Digest, candidates: seq<Candidate>)
    returns (res: WorkerResult, attempts: nat, progress: seq<nat>)
    ensures attempts <= |candidates|
    ensures forall j :: 0 <= j < attempts ==> Verdict(pref, n, sha256, candidates[j]) == Ok(false)
    ensures res.CandidatesExhausted? <==> attempts == |candidates|
    ensures res.Found? ==>
              Verdict(pref, n, sha256, candidates[attempts]) == Ok(true) &&
              res.suff == ToHex(candidates[attempts])
    ensures res.WorkerRaised? ==> Verdict(pref, n, sha256, candidates[attempts]) == Err(res.error)
    ensures progress == ProgressPoints(attempts)
    ensures forall x :: x in progress <==> 1 <= x <= attempts && x % ProgressInterval == 0
  {
    attempts, progress := 0, [];
    while attempts < |candidates|
      invariant attempts <= |candidates|
      invariant forall j :: 0 <= j < attempts ==> Verdict(pref, n, sha256, candidates[j]) == Ok(false)
      invariant progress == ProgressPoints(attempts)
    {
      var suff := ToHex(candidates[attempts]);
      var combined := pref + suff;
      var decoded := FromHex(combined);
      if decoded.None? {
        // bytes.fromhex raises ValueError
        res := WorkerRaised(ValueError);
        ProgressMembers(attempts);
        return;
      }
      var hashResult := sha256(decoded.value);
      var valid := IsValidHash(hashResult, n);
      if valid.Err? {
        res := WorkerRaised(valid.error);
        ProgressMembers(attempts);
        return;
      }
      if valid.value {
        res := Found(suff);
        ProgressMembers(attempts);
        return;
      }
      attempts := attempts + 1;
      if attempts % ProgressInterval == 0 {
        progress := progress + [attempts];
      }
    }
    res := CandidatesExhausted;
    ProgressMembers(attempts);
  }

  /** A progress line is printed exactly at the positive multiples of the
      interval up to the attempt count. */
  lemma ProgressMembers(attempts: nat)
    ensures forall x :: x in ProgressPoints(attempts) <==> 1 <= x <= attempts && x % ProgressInterval == 0
  {
    var ps := ProgressPoints(attempts);
    forall x | 1 <= x <= attempts && x % ProgressInterval == 0
      ensures x in ps
    {
      var i := x / ProgressInterval - 1;
      assert ps[i] == x;
    }
  }

  /** A candidate the worker accepts gives a proof of work over the raw
      bytes: the digest of the prefix bytes followed by the candidate bytes
      starts with n zero bits, and n is at most the digest's 256 bits. */
  lemma AcceptedIsProofOfWork(pref: string, n: nat, sha256: seq<byte> -> Digest, c: Candidate)
    requires FromHex(pref).Some?
    requires Verdict(pref, n, sha256, c) == Ok(true)
    ensures n <= 256
    ensures LeadingZeroBits(sha256(FromHex(pref).value + c), n)
  {
    PrefixedSuffixDecodes(pref, c);
  }

  /** With a prefix that decodes and a difficulty within the digest, no
      candidate makes the worker raise: each is accepted or rejected by the
      bit predicate on the digest of the raw bytes. */
  lemma ValidChallengeNeverRaises(pref: string, n: nat, sha256: seq<byte> -> Digest, c: Candidate)
    requires FromHex(pref).Some? && n <= 256
    ensures Verdict(pref, n, sha256, c) == Ok(LeadingZeroBits(sha256(FromHex(pref).value + c), n))
  {
    PrefixedSuffixDecodes(pref, c);
  }

  /** Beyond 256 bits no candidate is ever accepted, so the source's worker
      can only loop forever (or raise, on an all-zero digest). */
  lemma UnsatisfiableNeverAccepts(pref: string, n: nat, sha256: seq<byte> -> Digest, c: Candidate)
    requires n > 256
    ensures Verdict(pref, n, sha256, c) != Ok(true)
  {
  }

  /** `(os.cpu_count() or 5)`: an unknown count, and a count of 0, which
      Python's `or` also treats as false, become 5. */
  function CpuCountOr5(cpuCount: Option<nat>): (c: nat)
    ensures c >= 1
    ensures cpuCount.Some? && cpuCount.value > 0 ==> c == cpuCount.value
    ensures c == 5 <==> cpuCount.None? || cpuCount.value == 0 || cpuCount.value == 5
  {
    if cpuCount.None? || cpuCount.value == 0 then 5 else cpuCount.value
  }

  /** `num_workers = min(32, (os.cpu_count() or 5) - 1)`: one fewer than a
      known CPU count up to 33 CPUs and 32 from there on, 4 when the count is
      unknown, and 0 exactly on a single-CPU machine. */
  function NumWorkers(cpuCount: Option<nat>): (w: nat)
    ensures w <= 32
    ensures cpuCount.None? ==> w == 4
    ensures cpuCount.Some? && cpuCount.value > 0 ==> w < cpuCount.value
    ensures cpuCount.Some? && 1 <= cpuCount.value <= 33 ==> w == cpuCount.value - 1
    ensures cpuCount.Some? && cpuCount.value >= 33 ==> w == 32
    ensures w == 0 <==> cpuCount == Some(1)
  {
    var c := CpuCountOr5(cpuCount);
    if 32 < c - 1 then 32 else c - 1
  }

  datatype FindResult =
    | Returned(suff: string)  // the string find_suffix returns
    | Raised(error: Error)    // an exception re-raised by future.result()
    | Searching               // no answer yet: the source would keep drawing

  /** `find_suffix`, with one worker run sequentially when the pool has any
      workers at all. With no workers it falls through to `return ""`. Any
      non-empty suffix it returns is the first accepted candidate's hex and
      solves the challenge. */
  method FindSuffix(pref: string, n: nat, cpuCount: Option<nat>, sha256: seq<byte> -> Digest,
                    candidates: seq<Candidate>)
    returns (out: FindResult)
    ensures out == Returned("") <==> NumWorkers(cpuCount) == 0
    ensures out.Returned? && out.suff != "" ==>
              |out.suff| == 128 && Solves(pref, n, sha256, out.suff) &&
              exists k :: 0 <= k < |candidates| && out.suff == ToHex(candidates[k]) &&
                Verdict(pref, n, sha256, candidates[k]) == Ok(true) &&
                forall j :: 0 <= j < k ==> Verdict(pref, n, sha256, candidates[j]) == Ok(false)
    ensures out.Raised? ==>
              exists k :: 0 <= k < |candidates| &&
                Verdict(pref, n, sha256, candidates[k]) == Err(out.error) &&
                forall j :: 0 <= j < k ==> Verdict(pref, n, sha256, candidates[j]) == Ok(false)
    ensures out.Searching? ==>
              NumWorkers(cpuCount) > 0 &&
              forall j :: 0 <= j < |candidates| ==> Verdict(pref, n, sha256, candidates[j]) == Ok(false)
  {
    var numWorkers := NumWorkers(cpuCount);
    if numWorkers == 0 {
      // no future is submitted, so as_completed yields nothing
      return Returned("");
    }
    var res, attempts, _ := Worker(pref, n, sha256, candidates);
    match res
    case Found(suff) =>
      out := Returned(suff);
    case WorkerRaised(e) =>
      out := Raised(e);
    case CandidatesExhausted =>
      out := Searching;
  }
}
