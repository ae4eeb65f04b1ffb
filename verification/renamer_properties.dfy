/** What the renamer promises: per file and over a whole run. */
module RenamerProperties {
  import opened Wrappers
  import opened PurePaths
  import opened HashRenamer

  /** A file whose stem already carries its tag is left where it is. */
  lemma SkipsTaggedFile(cfg: Config, fs: Store, p: Path, f: Faults)
    requires Readable(cfg, fs, p, f)
    requires EndsWith(Stem(p.name), Tag(cfg, fs[p].content))
    ensures Step(cfg, fs, p, f) == StepResult(AlreadyHashed, fs)
  {
  }

  /** An untagged file whose tagged name is free moves exactly there, unless the move fails. */
  lemma MovesToFreeTarget(cfg: Config, fs: Store, p: Path, f: Faults)
    requires Readable(cfg, fs, p, f)
    requires !EndsWith(Stem(p.name), Tag(cfg, fs[p].content))
    requires TargetOf(cfg, fs, p) !in fs
    ensures Step(cfg, fs, p, f).outcome
              == if !cfg.dryRun && f.moveFails then MoveFailed(TargetOf(cfg, fs, p)) else Moved(TargetOf(cfg, fs, p))
    ensures Step(cfg, fs, p, f).store
              == if cfg.dryRun || f.moveFails then fs else MoveTo(fs, p, TargetOf(cfg, fs, p))
  {
  }

  /**
    Duplicate collapse: when the tagged name already holds the same bytes,
    the source is deleted (unless dry run) and the tagged file is untouched.
   */
  lemma CollapsesDuplicate(cfg: Config, fs: Store, p: Path, f: Faults)
    requires Readable(cfg, fs, p, f)
    requires !EndsWith(Stem(p.name), Tag(cfg, fs[p].content))
    requires TargetOf(cfg, fs, p) in fs && fs[TargetOf(cfg, fs, p)] == fs[p]
    requires !f.compareFails
    ensures Step(cfg, fs, p, f).outcome == DuplicateRemoved(TargetOf(cfg, fs, p))
    ensures Step(cfg, fs, p, f).store == if cfg.dryRun then fs else fs - {p}
    ensures TargetOf(cfg, fs, p) in Step(cfg, fs, p, f).store
    ensures Step(cfg, fs, p, f).store[TargetOf(cfg, fs, p)] == fs[TargetOf(cfg, fs, p)]
  {
  }

  /**
    Collision numbering: when the tagged name is taken by different bytes, or
    the comparison failed, the file goes to the numbered candidate with the
    least free index, and every smaller index is taken.
   */
  lemma NumbersOnCollision(cfg: Config, fs: Store, p: Path, f: Faults)
    requires Readable(cfg, fs, p, f)
    requires !EndsWith(Stem(p.name), Tag(cfg, fs[p].content))
    requires TargetOf(cfg, fs, p) in fs
    requires f.compareFails || fs[TargetOf(cfg, fs, p)] != fs[p]
    ensures var out := Step(cfg, fs, p, f).outcome;
            && (out.Moved? || out.MoveFailed?)
            && (out.MoveFailed? <==> !cfg.dryRun && f.moveFails)
            && exists i: nat :: 
                 && 1 <= i
                 && out.dest == Numbered(TargetOf(cfg, fs, p), i)
                 && out.dest !in fs
                 && forall j :: 1 <= j < i ==> Numbered(TargetOf(cfg, fs, p), j) in fs
  {
    var target := TargetOf(cfg, fs, p);
    var i := FreeIndex(fs, target);
    assert Destination(fs, target) == Numbered(target, i);
    assert Step(cfg, fs, p, f).outcome.dest == Numbered(target, i);
  }

  /** Nothing stored before a step is lost by it: every node is still at some path. */
  lemma StepKeepsEveryContent(cfg: Config, fs: Store, p: Path, f: Faults)
    ensures fs.Values <= Step(cfg, fs, p, f).store.Values
  {
  }

  /** Nothing stored before a run is lost by it. */
  lemma {:induction false} RunKeepsEveryContent(cfg: Config, fs: Store, jobs: seq<Job>)
    ensures fs.Values <= Run(cfg, fs, jobs).store.Values
    decreases |jobs|
  {
    if |jobs| > 0 {
      var s := Step(cfg, fs, jobs[0].path, jobs[0].faults);
      StepKeepsEveryContent(cfg, fs, jobs[0].path, jobs[0].faults);
      RunKeepsEveryContent(cfg, s.store, jobs[1..]);
    }
  }

  /**
    The run is sequential: the k-th file is stepped against the store the
    first k files left, whatever happened to them (a failure does not stop
    the run).
   */
  lemma {:induction false} RunIsSequential(cfg: Config, fs: Store, jobs: seq<Job>, k: nat)
    requires k < |jobs|
    ensures var before := Run(cfg, fs, jobs[..k]).store;
            var s := Step(cfg, before, jobs[k].path, jobs[k].faults);
            && Run(cfg, fs, jobs).outcomes[k] == s.outcome
            && Run(cfg, fs, jobs).store == Run(cfg, s.store, jobs[k + 1..]).store
    decreases k
  {
    if k > 0 {
      var s0 := Step(cfg, fs, jobs[0].path, jobs[0].faults);
      var tail, prefix := jobs[1..], jobs[..k];
      assert prefix[0] == jobs[0] && prefix[1..] == tail[..k - 1];
      assert Run(cfg, fs, prefix).store == Run(cfg, s0.store, tail[..k - 1]).store;
      assert Run(cfg, fs, jobs).outcomes[k] == Run(cfg, s0.store, tail).outcomes[k - 1];
      assert Run(cfg, fs, jobs).store == Run(cfg, s0.store, tail).store;
      RunIsSequential(cfg, s0.store, tail, k - 1);
      assert tail[k - 1] == jobs[k];
      assert tail[k..] == jobs[k + 1..];
    } else {
      assert jobs[..0] == [];
    }
  }

  /**
    A file sitting at the tagged name of `name`, with the same digest, is
    skipped (or unreadable), provided `name` has a suffix, or the separator
    and the digest are dot-free and `name` does not end with a dot.
   */
  lemma TaggedNameIsSkipped(cfg: Config, st: Store, name: string, dest: Path, g: Faults)
    requires cfg.hash.Some? && dest in st && st[dest].File?
    requires HasSuffix(name)
             || ('.' !in cfg.sep && '.' !in ShortDigest(cfg.hash.value(st[dest].content), cfg.length)
                 && (|name| == 0 || name[|name| - 1] != '.'))
    requires dest.name == Stem(name) + cfg.sep + ShortDigest(cfg.hash.value(st[dest].content), cfg.length) + Suffix(name)
    ensures Step(cfg, st, dest, g).outcome.AlreadyHashed? || (g.readFails && Step(cfg, st, dest, g).outcome.ReadFailed?)
    ensures Step(cfg, st, dest, g).store == st
  {
    TagStaysAtStemEnd(name, cfg.sep, ShortDigest(cfg.hash.value(st[dest].content), cfg.length));
    if !g.readFails {
      SkipsTaggedFile(cfg, st, dest, g);
    }
  }

  /** Regrouping a four-part concatenation around its middle two parts. */
  lemma ConcatRegroup(a: string, b: string, c: string, d: string)
    ensures a + b + c + d == a + (b + c) + d
  {
  }

  /** `TaggedStem` for a tag made of a separator and a short digest. */
  lemma TagStaysAtStemEnd(name: string, sep: string, short: string)
    requires HasSuffix(name) || ('.' !in sep && '.' !in short && (|name| == 0 || name[|name| - 1] != '.'))
    ensures EndsWith(Stem(Stem(name) + sep + short + Suffix(name)), sep + short)
  {
    if !HasSuffix(name) {
      NotInConcat(sep, short, '.');
    }
    ConcatRegroup(Stem(name), sep, short, Suffix(name));
    TaggedStem(name, sep + short);
  }

  /**
    Re-running on a freshly tagged file is a no-op: after a plain (un-numbered)
    move, stepping the new name finds its tag, provided either the name has a
    suffix, or the separator and the digest are dot-free and the name does not
    end with a dot.
   */
  lemma RetagIsNoop(cfg: Config, fs: Store, p: Path, f: Faults, g: Faults)
    requires Readable(cfg, fs, p, f)
    requires HasSuffix(p.name)
             || ('.' !in cfg.sep && '.' !in ShortDigest(cfg.hash.value(fs[p].content), cfg.length)
                 && (|p.name| == 0 || p.name[|p.name| - 1] != '.'))
    requires Step(cfg, fs, p, f).outcome == Moved(TargetOf(cfg, fs, p))
    requires !cfg.dryRun
    ensures var after := Step(cfg, fs, p, f).store;
            var again := Step(cfg, after, TargetOf(cfg, fs, p), g);
            && (again.outcome.AlreadyHashed? || (g.readFails && again.outcome.ReadFailed?))
            && again.store == after
  {
    var dest := TargetOf(cfg, fs, p);
    var after := Step(cfg, fs, p, f).store;
    assert after[dest] == fs[p];
    TaggedNameIsSkipped(cfg, after, p.name, dest, g);
  }

  /** The name split of `a.`: no suffix, so the tag goes at the end. */
  lemma TrailingDotNameBefore()
    ensures Stem("a.") == "a." && Suffix("a.") == ""
    ensures !EndsWith("a.", "-" + "0")
    ensures "a." + "-" + "0" + "" == "a.-0"
  {
  }

  /** The name split of `a.-0`: the old trailing dot now opens the suffix `.-0`. */
  lemma TrailingDotNameAfter()
    ensures Stem("a.-0") == "a" && Suffix("a.-0") == ".-0"
    ensures !EndsWith("a", "-" + "0")
    ensures "a" + "-" + "0" + ".-0" == "a-0.-0"
  {
  }

  /** The first run tags `a.` as `a.-0`. */
  lemma TrailingDotFirstRun(h: Bytes -> string, content: Bytes, dir: string, f: Faults)
    requires h(content) == "0"
    requires !f.readFails && !f.moveFails
    ensures var fs := map[Path(dir, "a.") := File(content)];
            Step(Config(Some(h), 8, "-", false), fs, Path(dir, "a."), f)
              == StepResult(Moved(Path(dir, "a.-0")), map[Path(dir, "a.-0") := File(content)])
  {
    var cfg := Config(Some(h), 8, "-", false);
    var p, q := Path(dir, "a."), Path(dir, "a.-0");
    var fs := map[p := File(content)];
    assert ShortDigest("0", 8) == "0";
    TrailingDotNameBefore();
    assert TargetOf(cfg, fs, p) == q;
    MovesToFreeTarget(cfg, fs, p, f);
    var r := Step(cfg, fs, p, f);
    assert r.store == map[q := File(content)];
  }

  /** The second run tags `a.-0` again, as `a-0.-0`. */
  lemma TrailingDotSecondRun(h: Bytes -> string, content: Bytes, dir: string, f: Faults)
    requires h(content) == "0"
    requires !f.readFails && !f.moveFails
    ensures var fs := map[Path(dir, "a.-0") := File(content)];
            Step(Config(Some(h), 8, "-", false), fs, Path(dir, "a.-0"), f).outcome == Moved(Path(dir, "a-0.-0"))
  {
    var cfg := Config(Some(h), 8, "-", false);
    var p := Path(dir, "a.-0");
    var fs := map[p := File(content)];
    assert ShortDigest("0", 8) == "0";
    TrailingDotNameAfter();
    assert TargetOf(cfg, fs, p) == Path(dir, "a-0.-0");
    MovesToFreeTarget(cfg, fs, p, f);
  }

  /**
    The trailing-dot exception to `RetagIsNoop`: with separator "-" and a
    digest "0", the file `a.` is tagged to `a.-0`, whose stem is `a`, so a
    second run tags it again, to `a-0.-0`.
   */
  lemma TrailingDotIsRetagged(h: Bytes -> string, content: Bytes, dir: string, f: Faults)
    requires h(content) == "0"
    requires !f.readFails && !f.moveFails
    ensures var cfg := Config(Some(h), 8, "-", false);
            var first := Step(cfg, map[Path(dir, "a.") := File(content)], Path(dir, "a."), f);
            var second := Step(cfg, first.store, Path(dir, "a.-0"), f);
            && first.outcome == Moved(Path(dir, "a.-0"))
            && !second.outcome.AlreadyHashed?
            && second.outcome == Moved(Path(dir, "a-0.-0"))
  {
    TrailingDotFirstRun(h, content, dir, f);
    TrailingDotSecondRun(h, content, dir, f);
  }

  /** The default settings: sha256 (given here as `h`), 8 characters, separator "-", no dry run. */
  function Defaults(h: Bytes -> string): Config {
    Config(Some(h), 8, "-", false)
  }

  /**
    An algorithm name the hash library does not know fails inside the per-file
    guard: every file is reported unreadable and nothing changes.
   */
  lemma {:induction false} UnknownAlgorithmChangesNothing(cfg: Config, fs: Store, jobs: seq<Job>)
    requires cfg.hash.None?
    ensures Run(cfg, fs, jobs).store == fs
    ensures forall k :: 0 <= k < |jobs| ==> Run(cfg, fs, jobs).outcomes[k] == ReadFailed
    decreases |jobs|
  {
    if |jobs| > 0 {
      UnknownAlgorithmChangesNothing(cfg, fs, jobs[1..]);
      var rest := Run(cfg, fs, jobs[1..]).outcomes;
      assert Run(cfg, fs, jobs).outcomes == [ReadFailed] + rest;
    }
  }

  /** The sha256 digest of the bytes "abc", as a hash function returns it. */
  const AbcSha256: string := "ba7816bf" + "8f01cfea414140de5dae2223b00361a396177a9cb410ff61f20015ad"

  /** `h` maps the bytes "abc" to their sha256 hex digest. */
  predicate HashesAbcLikeSha256(h: Bytes -> string) {
    h([97, 98, 99]) == AbcSha256
  }

  /** The name split of the example before tagging. */
  lemma PhotoNameBefore()
    ensures Stem("photo.png") == "photo" && Suffix("photo.png") == ".png"
    ensures !EndsWith("photo", "-" + "ba7816bf")
    ensures "photo" + "-" + "ba7816bf" + ".png" == "photo-ba7816bf.png"
  {
    RFindAt("photo.png", '.', 5);
  }

  /** The name split of the example after tagging. */
  lemma PhotoNameAfter()
    ensures Stem("photo-ba7816bf.png") == "photo-ba7816bf"
    ensures EndsWith("photo-ba7816bf", "-" + "ba7816bf")
  {
    var name := "photo-ba7816bf.png";
    RFindAt(name, '.', 14);
    assert Suffix(name) == name[14..];
    assert Stem(name) == name[..14];
  }

  /** First run of the example: `photo.png` is moved to `photo-ba7816bf.png`. */
  lemma PhotoFirstRun(h: Bytes -> string, dir: string, f: Faults)
    requires HashesAbcLikeSha256(h)
    requires !f.readFails && !f.moveFails
    ensures Step(Defaults(h), map[Path(dir, "photo.png") := File([97, 98, 99])], Path(dir, "photo.png"), f)
              == StepResult(Moved(Path(dir, "photo-ba7816bf.png")), map[Path(dir, "photo-ba7816bf.png") := File([97, 98, 99])])
  {
    var p, q := Path(dir, "photo.png"), Path(dir, "photo-ba7816bf.png");
    var fs := map[p := File([97, 98, 99])];
    assert ShortDigest(AbcSha256, 8) == "ba7816bf";
    PhotoNameBefore();
    assert TargetOf(Defaults(h), fs, p) == q;
    assert q !in fs;
    MovesToFreeTarget(Defaults(h), fs, p, f);
    var r := Step(Defaults(h), fs, p, f);
    assert r.outcome == Moved(q);
    assert r.store == map[q := File([97, 98, 99])];
  }

  /** Second run of the example: `photo-ba7816bf.png` is skipped and nothing changes. */
  lemma PhotoSecondRun(h: Bytes -> string, dir: string, g: Faults)
    requires HashesAbcLikeSha256(h)
    requires !g.readFails
    ensures var fs := map[Path(dir, "photo-ba7816bf.png") := File([97, 98, 99])];
            Step(Defaults(h), fs, Path(dir, "photo-ba7816bf.png"), g) == StepResult(AlreadyHashed, fs)
  {
    var q := Path(dir, "photo-ba7816bf.png");
    var fs := map[q := File([97, 98, 99])];
    assert ShortDigest(AbcSha256, 8) == "ba7816bf";
    PhotoNameAfter();
    SkipsTaggedFile(Defaults(h), fs, q, g);
  }

  /**
    The worked example: `photo.png` holding "abc", whose sha256 digest starts
    "ba7816bf", becomes `photo-ba7816bf.png`, and a second run skips it.
   */
  lemma PhotoIsTaggedOnce(h: Bytes -> string, dir: string, f: Faults, g: Faults)
    requires HashesAbcLikeSha256(h)
    requires !f.readFails && !f.moveFails && !g.readFails
    ensures var fs := map[Path(dir, "photo.png") := File([97, 98, 99])];
            var first := Step(Defaults(h), fs, Path(dir, "photo.png"), f);
            && first.outcome == Moved(Path(dir, "photo-ba7816bf.png"))
            && Step(Defaults(h), first.store, Path(dir, "photo-ba7816bf.png"), g)
                 == StepResult(AlreadyHashed, first.store)
  {
    PhotoFirstRun(h, dir, f);
    PhotoSecondRun(h, dir, g);
  }
}
