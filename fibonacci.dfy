/** The sequence file of `porting-tutorial/fibonacci/fibonacci.cpp`: a binary
    file of 4-byte unsigned entries used as a persistent Fibonacci counter.
    `init` makes sure the file holds a starting pair; `step` appends the
    wrapping sum of the last two entries. The file is modelled by its byte
    contents alone; a missing file has no contents. */
module Fibonacci {
  import opened Words

  /** The single error kind of the stream: a failed stream operation sets
      failbit, which the exception mask turns into a failure. For `step` this
      is the seek before the start of a file shorter than two entries, and
      also the open of a missing file, which the model sees as a file with
      no contents */
  datatype IoError = SeekBeforeStart

  datatype Result<T> = Ok(value: T) | Err(error: IoError)

  /** What `step` logs: `first + second = result` */
  datatype Report = Report(first: uint32, second: uint32, result: uint32)

  /** `init` rewrites the file when `end - begin` is below this many bytes, not entries */
  const RESET_THRESHOLD: nat := 2

  /** The value both starting entries hold */
  const SEED: uint32 := 1

  /** The bytes `step` needs behind the end of the file: two entries */
  const STEP_WINDOW: nat := 2 * WORD_SIZE

  /** A stream `write` of `data` at put position `pos` (at most the end of the
      file): the bytes there are overwritten, the file grows if the write
      runs past its end, and every other byte stays */
  function WriteAt(b: seq<uint8>, pos: nat, data: seq<uint8>): (r: seq<uint8>)
    requires pos <= |b|
    ensures |r| == if pos + |data| <= |b| then |b| else pos + |data|
    ensures r[..pos] == b[..pos]
    ensures r[pos..pos + |data|] == data
    ensures forall i :: pos + |data| <= i < |b| ==> r[i] == b[i]
  {
    b[..pos] + data + if pos + |data| <= |b| then b[pos + |data|..] else []
  }

  /** A write at the end of the file is an append */
  lemma WriteAtEnd(b: seq<uint8>, data: seq<uint8>)
    ensures WriteAt(b, |b|, data) == b + data
  {
  }

  // ---------------------------------------------------------------------
  // Specification of the two routines on file contents

  /** The contents of the file after `init`: a file shorter than two bytes
      (a missing file included) is replaced by the entries (1, 1); any other
      file is left as it is */
  function InitContents(b: seq<uint8>): (r: seq<uint8>)
    ensures |b| < RESET_THRESHOLD ==> r == [1, 0, 0, 0, 1, 0, 0, 0]
    ensures |b| < RESET_THRESHOLD ==> |r| % WORD_SIZE == 0 && Entries(r) == [SEED, SEED]
    ensures RESET_THRESHOLD <= |b| ==> r == b
    ensures RESET_THRESHOLD <= |r|
  {
    if |b| < RESET_THRESHOLD then
      var r := EncodeWord(SEED) + EncodeWord(SEED);
      assert r[WORD_SIZE..][WORD_SIZE..] == [];
      r
    else
      b
  }

  /** What `step` reports: the word 8 bytes before the end, the word 4 bytes
      before the end and their wrapping sum; a file too short for the first
      seek fails */
  function StepReport(b: seq<uint8>): (r: Result<Report>)
    ensures r.Err? <==> |b| < STEP_WINDOW
    ensures r.Err? ==> r.error == SeekBeforeStart
    ensures r.Ok? ==> r.value.result == AddWrap(r.value.first, r.value.second)
  {
    if |b| < STEP_WINDOW then
      Err(SeekBeforeStart)
    else
      var first := DecodeWord(b[|b| - STEP_WINDOW..|b| - WORD_SIZE]);
      var second := DecodeWord(b[|b| - WORD_SIZE..]);
      Ok(Report(first, second, AddWrap(first, second)))
  }

  /** The contents of the file after `step`: one word appended on success,
      nothing changed on failure */
  function StepContents(b: seq<uint8>): (c: seq<uint8>)
    ensures |b| < STEP_WINDOW ==> c == b
    ensures STEP_WINDOW <= |b| ==> |c| == |b| + WORD_SIZE && c[..|b|] == b
    ensures STEP_WINDOW <= |b| ==>
      DecodeWord(c[|b|..]) ==
        AddWrap(DecodeWord(b[|b| - STEP_WINDOW..|b| - WORD_SIZE]), DecodeWord(b[|b| - WORD_SIZE..]))
  {
    match StepReport(b)
    case Err(_) => b
    case Ok(report) =>
      var c := b + EncodeWord(report.result);
      assert c[|b|..] == EncodeWord(report.result);
      c
  }

  // ---------------------------------------------------------------------
  // The file as an object whose two routines update it in place

  class SequenceFile {
    /** The bytes of the file at the path */
    var contents: seq<uint8>

    /** The file at a path as it currently is (empty when it does not exist) */
    constructor (existing: seq<uint8>)
      ensures contents == existing
    {
      contents := existing;
    }

    /** `init(path)`: measure the file; if it is shorter than two bytes,
        remove it, reopen it empty and write the entry 1 at offsets 0 and 4 */
    method Init()
      modifies this
      ensures contents == InitContents(old(contents))
      ensures RESET_THRESHOLD <= |old(contents)| ==> unchanged(this)
    {
      var begin, end := 0, |contents|;
      if end - begin < RESET_THRESHOLD {
        contents := [];
        var val := SEED;
        contents := WriteAt(contents, 0, EncodeWord(val));
        contents := WriteAt(contents, WORD_SIZE, EncodeWord(val));
        assert contents == EncodeWord(val) + EncodeWord(val);
      }
    }

    /** `step(path)`: read the words 8 and 4 bytes before the end, append
        their wrapping sum at the end and return the triple that is logged */
    method Step() returns (r: Result<Report>)
      modifies this
      ensures r == StepReport(old(contents))
      ensures contents == StepContents(old(contents))
      ensures old(contents) <= contents
    {
      if |contents| < STEP_WINDOW {
        return Err(SeekBeforeStart);
      }
      var first := DecodeWord(contents[|contents| - STEP_WINDOW..|contents| - WORD_SIZE]);
      var second := DecodeWord(contents[|contents| - WORD_SIZE..]);
      var result := AddWrap(first, second);
      WriteAtEnd(contents, EncodeWord(result));
      contents := WriteAt(contents, |contents|, EncodeWord(result));
      r := Ok(Report(first, second, result));
    }
  }

  // ---------------------------------------------------------------------
  // Properties of the routines

  /** Running `init` twice leaves the same contents as running it once */
  lemma InitIdempotent(b: seq<uint8>)
    ensures InitContents(InitContents(b)) == InitContents(b)
  {
  }

  /** A file of 2 to 7 bytes passes `init` untouched, and the following
      `step` then fails */
  lemma ShortFileSurvivesInit(b: seq<uint8>)
    requires RESET_THRESHOLD <= |b| < STEP_WINDOW
    ensures InitContents(b) == b
    ensures StepReport(InitContents(b)) == Err(SeekBeforeStart)
    ensures StepContents(InitContents(b)) == b
  {
  }

  /** The reported triple is the two words read and the word appended */
  lemma StepReportsWords(b: seq<uint8>)
    requires STEP_WINDOW <= |b|
    ensures StepReport(b).Ok?
    ensures StepReport(b).value.first == DecodeWord(b[|b| - STEP_WINDOW..|b| - WORD_SIZE])
    ensures StepReport(b).value.second == DecodeWord(b[|b| - WORD_SIZE..])
    ensures StepReport(b).value.result == DecodeWord(StepContents(b)[|b|..])
  {
  }

  /** From a missing file: `init` writes the entries (1, 1) and the first
      `step` reports 1 + 1 = 2 and appends the entry 2 */
  lemma FirstStep()
    ensures InitContents([]) == [1, 0, 0, 0, 1, 0, 0, 0]
    ensures StepReport(InitContents([])) == Ok(Report(1, 1, 2))
    ensures StepContents(InitContents([])) == [1, 0, 0, 0, 1, 0, 0, 0, 2, 0, 0, 0]
  {
  }

  /** On a file of whole entries, `step` appends the wrapping sum of the last
      two entries as a new entry */
  lemma {:induction false} StepEntries(b: seq<uint8>)
    requires |b| % WORD_SIZE == 0 && STEP_WINDOW <= |b|
    ensures |StepContents(b)| % WORD_SIZE == 0
    ensures var e := Entries(b);
      Entries(StepContents(b)) == e + [AddWrap(e[|e| - 2], e[|e| - 1])]
  {
    var e := Entries(b);
    LastTwoEntries(b);
    var w := AddWrap(e[|e| - 2], e[|e| - 1]);
    assert StepContents(b) == b + EncodeWord(w);
    EntriesAppend(b, w);
  }

  /** Every entry from index 2 on is the wrapping sum of the two before it */
  ghost predicate FollowsRecurrence(ws: seq<uint32>)
  {
    forall i :: 2 <= i < |ws| ==> ws[i] == AddWrap(ws[i - 2], ws[i - 1])
  }

  /** `step` keeps the Fibonacci recurrence of a file of whole entries */
  lemma StepPreservesRecurrence(b: seq<uint8>)
    requires |b| % WORD_SIZE == 0 && STEP_WINDOW <= |b|
    requires FollowsRecurrence(Entries(b))
    ensures |StepContents(b)| % WORD_SIZE == 0
    ensures FollowsRecurrence(Entries(StepContents(b)))
  {
    StepEntries(b);
    var e := Entries(b);
    var e' := Entries(StepContents(b));
    forall i | 2 <= i < |e'|
      ensures e'[i] == AddWrap(e'[i - 2], e'[i - 1])
    {
      if i < |e| {
        assert e'[i] == e[i] && e'[i - 2] == e[i - 2] && e'[i - 1] == e[i - 1];
      }
    }
  }

  /** The Fibonacci numbers, Fib(1) == Fib(2) == 1 */
  function Fib(n: nat): nat
  {
    if n < 2 then n else Fib(n - 2) + Fib(n - 1)
  }

  /** Reduction modulo 2^32 commutes with addition */
  lemma ModSum(a: nat, b: nat)
    ensures (a % MODULUS + b % MODULUS) % MODULUS == (a + b) % MODULUS
  {
  }

  /** Entry `i` of a file that `init` started and `step` extended:
      Fib(i + 1) as an `unsigned int` */
  function FibEntry(i: nat): uint32
  {
    Fib(i + 1) % MODULUS
  }

  /** Wrapping addition of two consecutive entries gives the next one */
  lemma FibWrap(i: nat)
    ensures AddWrap(FibEntry(i), FibEntry(i + 1)) == FibEntry(i + 2)
  {
    ModSum(Fib(i + 1), Fib(i + 2));
  }

  /** A file whose `k` entries are the first `k` entry values, `k` at least
      two, gets the next one appended by `step` */
  lemma StepExtendsFibEntries(b: seq<uint8>, k: nat)
    requires |b| % WORD_SIZE == 0 && |Entries(b)| == k && 2 <= k
    requires forall i :: 0 <= i < k ==> Entries(b)[i] == FibEntry(i)
    ensures var c := StepContents(b);
      |c| % WORD_SIZE == 0 && |Entries(c)| == k + 1 &&
      forall i :: 0 <= i < k + 1 ==> Entries(c)[i] == FibEntry(i)
  {
    StepEntries(b);
    FibWrap(k - 2);
    assert Entries(StepContents(b)) == Entries(b) + [FibEntry(k)];
  }

  /** The contents after `n` calls of `step` */
  function Steps(b: seq<uint8>, n: nat): seq<uint8>
  {
    if n == 0 then b else StepContents(Steps(b, n - 1))
  }

  /** `n` steps on a file holding the two seeds give a file of 2 + n whole
      entries, entry i being Fib(i + 1) mod 2^32 */
  lemma {:induction false} StepsFromSeeds(b: seq<uint8>, n: nat)
    requires |b| % WORD_SIZE == 0 && Entries(b) == [SEED, SEED]
    ensures var c := Steps(b, n);
      |c| % WORD_SIZE == 0 && |Entries(c)| == n + 2 &&
      forall i :: 0 <= i < n + 2 ==> Entries(c)[i] == FibEntry(i)
  {
    if n == 0 {
      assert FibEntry(0) == SEED && FibEntry(1) == SEED;
    } else {
      StepsFromSeeds(b, n - 1);
      StepExtendsFibEntries(Steps(b, n - 1), n + 1);
    }
  }

  /** `init` on a missing or near-empty file followed by `n` steps gives a
      file of 2 + n whole entries, entry i being Fib(i + 1) mod 2^32 */
  lemma InitThenSteps(b: seq<uint8>, n: nat)
    requires |b| < RESET_THRESHOLD
    ensures var c := Steps(InitContents(b), n);
      |c| % WORD_SIZE == 0 && |Entries(c)| == n + 2 &&
      forall i :: 0 <= i < n + 2 ==> Entries(c)[i] == FibEntry(i)
  {
    StepsFromSeeds(InitContents(b), n);
  }
}
