/**
  The content-hash renamer: for each file of a list fixed up front, derive a
  short digest of its bytes and move the file to `stem + sep + short + suffix`
  in the same directory, skipping files already tagged, deleting a file whose
  tagged name already holds the same bytes, and numbering the tagged name
  when it is taken by something else.

  The filesystem is an immutable map from path to node; every I/O failure
  the program catches is an explicit flag on the file's job.
 */
module HashRenamer {
  import opened Wrappers
  import opened PurePaths
  import Decimal

  newtype byte = x: int | 0 <= x < 256

  type Bytes = seq<byte>

  /** What a path holds: a regular file with its bytes, or a directory. */
  datatype Node = File(content: Bytes) | Dir

  /** The filesystem as seen by the renamer. */
  type Store = map<Path, Node>

  /**
    The run's settings. `hash` is the chosen algorithm's hex digest, or None
    when the hash library does not know the algorithm's name.
   */
  datatype Config = Config(hash: Option<Bytes -> string>, length: nat, sep: string, dryRun: bool)

  /**
    The I/O failures that may strike one file: reading it, comparing it, moving it.
    `compareFails` stands for any exception inside the duplicate test's `try`:
    reading either file, or deleting the source once both hold the same bytes.
    Either way the code falls through to the numbered search.
   */
  datatype Faults = Faults(readFails: bool, compareFails: bool, moveFails: bool)

  /** One file of the materialised list, with the failures that strike it. */
  datatype Job = Job(path: Path, faults: Faults)

  /** What happened to one file, as the program reports it. */
  datatype Outcome =
    | ReadFailed                  // the digest could not be computed
    | AlreadyHashed               // the stem already carries the tag
    | DuplicateRemoved(kept: Path) // the tagged name holds the same bytes: source dropped
    | Moved(dest: Path)           // moved (or, in a dry run, planned to move) to dest
    | MoveFailed(dest: Path)      // the move to dest raised

  datatype StepResult = StepResult(outcome: Outcome, store: Store)

  datatype RunResult = RunResult(outcomes: seq<Outcome>, store: Store)

  /** `full[:length]`: the first `length` characters, or all of them when there are fewer. */
  function ShortDigest(full: string, length: nat): (r: string)
    ensures |r| == if length <= |full| then length else |full|
    ensures full[..|r|] == r
  {
    if length <= |full| then full[..length] else full
  }

  /** The tagged name `stem + sep + short + suffix`, in the source's directory. */
  function TargetPath(p: Path, sep: string, short: string): (r: Path)
    ensures r.parent == p.parent
    ensures |r.name| == |p.name| + |sep| + |short|
    ensures EndsWith(r.name, Suffix(p.name))
  {
    var name := Stem(p.name) + sep + short + Suffix(p.name);
    assert name[|name| - |Suffix(p.name)|..] == Suffix(p.name);
    WithName(p, name)
  }

  /** The collision candidate `"<target stem>-<i><target suffix>"`: the joiner is always "-". */
  function Numbered(target: Path, i: nat): (r: Path)
    ensures r.parent == target.parent
    ensures |r.name| == |target.name| + 1 + |Decimal.Show(i)|
    ensures r.name[..|Stem(target.name)| + 1] == Stem(target.name) + "-"
    ensures EndsWith(r.name, Suffix(target.name))
  {
    WithName(target, Stem(target.name) + "-" + Decimal.Show(i) + Suffix(target.name))
  }

  /** Distinct indices give distinct candidates. */
  lemma NumberedInjective(target: Path, i: nat, j: nat)
    requires Numbered(target, i) == Numbered(target, j)
    ensures i == j
  {
    var pre, suf := Stem(target.name) + "-", Suffix(target.name);
    var a, b := Decimal.Show(i), Decimal.Show(j);
    var ni, nj := pre + a + suf, pre + b + suf;
    assert ni == Numbered(target, i).name && nj == Numbered(target, j).name;
    assert |a| == |b|;
    Middle(pre, a, suf);
    Middle(pre, b, suf);
    Decimal.ShowInjective(i, j);
  }

  /** A set that holds the candidates numbered 1 to n has at least n elements. */
  lemma {:induction false} CandidatesBounded(taken: set<Path>, target: Path, n: nat)
    requires forall j :: 1 <= j <= n ==> Numbered(target, j) in taken
    ensures n <= |taken|
    decreases n
  {
    if n > 0 {
      var rest := taken - {Numbered(target, n)};
      forall j | 1 <= j <= n - 1
        ensures Numbered(target, j) in rest
      {
        if Numbered(target, j) == Numbered(target, n) {
          NumberedInjective(target, j, n);
        }
      }
      CandidatesBounded(rest, target, n - 1);
    }
  }

  /**
    The collision search of the source's `while candidate.exists()` loop,
    resumed at index i: the least free index at or above i.
   */
  function FindFree(fs: Store, target: Path, i: nat): (r: nat)
    requires 1 <= i
    requires forall j :: 1 <= j < i ==> Numbered(target, j) in fs
    ensures i <= r
    ensures Numbered(target, r) !in fs
    ensures forall j :: 1 <= j < r ==> Numbered(target, j) in fs
    decreases |fs| + 1 - i
  {
    CandidatesBounded(fs.Keys, target, i - 1);
    if Numbered(target, i) !in fs then i
    else
      CandidatesBounded(fs.Keys, target, i);
      FindFree(fs, target, i + 1)
  }

  /** The least index i >= 1 whose candidate is absent from the store. */
  function FreeIndex(fs: Store, target: Path): (i: nat)
    ensures 1 <= i
    ensures Numbered(target, i) !in fs
    ensures forall j :: 1 <= j < i ==> Numbered(target, j) in fs
  {
    FindFree(fs, target, 1)
  }

  /** The tag that `content` calls for: `sep` followed by its short digest. */
  function Tag(cfg: Config, content: Bytes): string
    requires cfg.hash.Some?
  {
    cfg.sep + ShortDigest(cfg.hash.value(content), cfg.length)
  }

  /** The source can be hashed: it is a regular file, the algorithm is known and reading works. */
  predicate Readable(cfg: Config, fs: Store, p: Path, f: Faults) {
    p in fs && fs[p].File? && cfg.hash.Some? && !f.readFails
  }

  /** The tagged path the content of `p` calls for. */
  function TargetOf(cfg: Config, fs: Store, p: Path): Path
    requires cfg.hash.Some? && p in fs && fs[p].File?
  {
    TargetPath(p, cfg.sep, ShortDigest(cfg.hash.value(fs[p].content), cfg.length))
  }

  /** `p.replace(dest)` onto a free name: `dest` takes the node of `p`, nothing else moves. */
  function MoveTo(fs: Store, p: Path, dest: Path): (r: Store)
    requires p in fs && dest !in fs
    ensures r.Keys == fs.Keys - {p} + {dest}
    ensures r[dest] == fs[p]
    ensures forall q :: q in fs && q != p ==> r[q] == fs[q]
  {
    (fs - {p})[dest := fs[p]]
  }

  /** A non-empty tag always yields a name other than the source's own. */
  lemma TargetIsNotSource(p: Path, sep: string, short: string)
    requires !EndsWith(Stem(p.name), sep + short)
    ensures TargetPath(p, sep, short) != p
  {
    EndsWithAppended(Stem(p.name), "");
    assert Stem(p.name) + "" == Stem(p.name);
  }

  /** Where the file goes once its tagged name is known: the name itself, or the first free numbered one. */
  function Destination(fs: Store, target: Path): (dest: Path)
    ensures dest !in fs
    ensures dest.parent == target.parent
    ensures target !in fs ==> dest == target
  {
    if target in fs then Numbered(target, FreeIndex(fs, target)) else target
  }

  /** The part of the step after the source was read and found untagged. */
  function Place(cfg: Config, fs: Store, p: Path, f: Faults, target: Path): (r: StepResult)
    requires p in fs && target != p
    ensures cfg.dryRun ==> r.store == fs
    ensures r.outcome.Moved? || r.outcome.MoveFailed? || r.outcome.DuplicateRemoved?
    ensures r.outcome.DuplicateRemoved? <==> target in fs && !f.compareFails && fs[target] == fs[p]
    ensures !r.outcome.DuplicateRemoved? ==> (r.outcome.MoveFailed? <==> !cfg.dryRun && f.moveFails)
    ensures r.outcome.MoveFailed? ==> r.store == fs
    ensures r.outcome.Moved? ==> r.outcome.dest !in fs && r.outcome.dest.parent == target.parent
    ensures r.outcome.Moved? && !cfg.dryRun ==> r.store == MoveTo(fs, p, r.outcome.dest)
    ensures r.outcome.DuplicateRemoved? ==>
              && r.outcome.kept == target && target in fs
              && fs[target] == fs[p]
              && (!cfg.dryRun ==> r.store == fs - {p})
    ensures forall q :: q in fs && q != p ==> q in r.store && r.store[q] == fs[q]
    ensures forall q :: q in r.store && q !in fs ==> r.outcome.Moved? && q == r.outcome.dest
  {
    if target in fs && !f.compareFails && fs[target] == fs[p] then
      StepResult(DuplicateRemoved(target), if cfg.dryRun then fs else fs - {p})
    else
      var dest := Destination(fs, target);
      if cfg.dryRun then StepResult(Moved(dest), fs)
      else if f.moveFails then StepResult(MoveFailed(dest), fs)
      else StepResult(Moved(dest), MoveTo(fs, p, dest))
  }

  /**
    One pass of the loop body for file `p`. The result's store is the
    filesystem after the step; a dry run reports the same outcome and leaves
    the store alone.
   */
  function Step(cfg: Config, fs: Store, p: Path, f: Faults): (r: StepResult)
    ensures cfg.dryRun ==> r.store == fs
    ensures r.outcome.ReadFailed? <==> !Readable(cfg, fs, p, f)
    ensures r.outcome.ReadFailed? || r.outcome.AlreadyHashed? || r.outcome.MoveFailed? ==> r.store == fs
    ensures r.outcome.Moved? || r.outcome.MoveFailed? ==> (r.outcome.MoveFailed? <==> !cfg.dryRun && f.moveFails)
    ensures r.outcome.Moved? ==>
              && p in fs
              && r.outcome.dest !in fs
              && r.outcome.dest.parent == p.parent
    ensures r.outcome.Moved? && !cfg.dryRun ==>
              && r.store.Keys == fs.Keys - {p} + {r.outcome.dest}
              && r.store[r.outcome.dest] == fs[p]
    ensures r.outcome.DuplicateRemoved? ==>
              && p in fs && r.outcome.kept in fs
              && r.outcome.kept != p
              && fs[r.outcome.kept] == fs[p]
              && (!cfg.dryRun ==> r.store.Keys == fs.Keys - {p})
    ensures forall q :: q in fs && q != p ==> q in r.store && r.store[q] == fs[q]
    ensures forall q :: q in r.store && q !in fs ==> r.outcome.Moved? && q == r.outcome.dest
  {
    if !Readable(cfg, fs, p, f) then StepResult(ReadFailed, fs)
    else
      var short := ShortDigest(cfg.hash.value(fs[p].content), cfg.length);
      if EndsWith(Stem(p.name), cfg.sep + short) then StepResult(AlreadyHashed, fs)
      else
        var target := TargetOf(cfg, fs, p);
        TargetIsNotSource(p, cfg.sep, short);
        Place(cfg, fs, p, f, target)
  }

  /** The loop of `process`: every job in order, each against the store the previous ones left. */
  function Run(cfg: Config, fs: Store, jobs: seq<Job>): (r: RunResult)
    ensures |r.outcomes| == |jobs|
    ensures cfg.dryRun ==> r.store == fs
    decreases |jobs|
  {
    if |jobs| == 0 then RunResult([], fs)
    else
      var s := Step(cfg, fs, jobs[0].path, jobs[0].faults);
      var rest := Run(cfg, s.store, jobs[1..]);
      RunResult([s.outcome] + rest.outcomes, rest.store)
  }
}
