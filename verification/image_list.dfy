/**
  The image lister: the sorted names of the regular files directly inside a
  directory, and the text written for them, one name per line.
 */
module ImageList {
  import opened Wrappers
  import opened StringOrder

  /**
    The kind of a directory entry, as `is_file()` sees it: a regular file (or
    a symlink to one), anything else (`is_file()` is false: a subdirectory, a
    socket, a dangling symlink), or an entry whose `stat` fails with an error
    other than not-found, on which `is_file()` raises.
   */
  datatype Kind = RegularFile | Directory | Inaccessible

  /**
    What the listed path turns out to be: absent, not a directory, a
    directory that cannot be listed (`iterdir` raises, as for a directory
    without read permission), or a directory with its entries.
   */
  datatype Node = Missing | FileNode | Unlistable | DirNode(entries: map<string, Kind>)

  /** The exceptions the listing raises: FileNotFoundError, NotADirectoryError, or another OSError such as PermissionError. */
  datatype ListError = FileNotFound | NotADirectory | AccessFailed

  /** Every entry can be asked whether it is a regular file. */
  predicate AllInspectable(entries: map<string, Kind>) {
    forall n :: n in entries ==> entries[n] != Inaccessible
  }

  /** The names of the regular-file entries of a directory. */
  function FileNames(entries: map<string, Kind>): set<string>
  {
    set n | n in entries && entries[n] == RegularFile
  }

  /**
    `list_images`: FileNotFound for a missing path, NotADirectory when the
    path is not a directory (`iterdir` raises), AccessFailed when the
    directory cannot be listed or one of its entries cannot be inspected
    (neither error is caught), otherwise the bare names of the regular
    files, sorted.
   */
  function ListImages(dir: Node): (r: Result<seq<string>, ListError>)
    ensures dir.Missing? <==> r == Failure(FileNotFound)
    ensures dir.FileNode? <==> r == Failure(NotADirectory)
    ensures r == Failure(AccessFailed) <==> dir.Unlistable? || (dir.DirNode? && !AllInspectable(dir.entries))
    ensures r.Success? <==> dir.DirNode? && AllInspectable(dir.entries)
    ensures r.Success? ==> StrictlySorted(r.value)
    ensures r.Success? ==> forall n :: n in r.value <==> n in dir.entries && dir.entries[n] == RegularFile
  {
    match dir
    case Missing => Failure(FileNotFound)
    case FileNode => Failure(NotADirectory)
    case Unlistable => Failure(AccessFailed)
    case DirNode(entries) =>
      if AllInspectable(entries) then Success(SortSet(FileNames(entries))) else Failure(AccessFailed)
  }

  /** Any enumeration order gives the same listing: it is the one sorted, duplicate-free sequence of the file names. */
  lemma ListingIsDetermined(entries: map<string, Kind>, names: seq<string>)
    requires AllInspectable(entries)
    requires StrictlySorted(names)
    requires forall n :: n in names <==> n in entries && entries[n] == RegularFile
    ensures ListImages(DirNode(entries)) == Success(names)
  {
    StrictlySortedUnique(SortSet(FileNames(entries)), names);
  }

  /** Python's `sep.join(names)`: the names in order, with `sep` between neighbours. */
  function Join(names: seq<string>, sep: string): (r: string)
    ensures names == [] ==> r == ""
    ensures |names| > 0 ==> |names[0]| <= |r| && r[..|names[0]|] == names[0]
  {
    if |names| == 0 then ""
    else if |names| == 1 then names[0]
    else names[0] + sep + Join(names[1..], sep)
  }

  /** The text `write_list` writes: the names joined by newlines, plus a final newline when there are any. */
  function Render(names: seq<string>): (text: string)
    ensures names == [] ==> text == ""
    ensures names != [] ==> |text| > 0 && text[|text| - 1] == '\n'
  {
    Join(names, "\n") + (if |names| > 0 then "\n" else "")
  }

  /** Each name followed by exactly one newline. */
  function Terminated(names: seq<string>): string
  {
    if |names| == 0 then "" else names[0] + "\n" + Terminated(names[1..])
  }

  /** The joined text with a trailing newline is each name terminated by a newline. */
  lemma {:induction false} RenderIsTerminated(names: seq<string>)
    ensures Render(names) == Terminated(names)
    decreases |names|
  {
    if |names| > 1 {
      RenderIsTerminated(names[1..]);
      assert Render(names[1..]) == Join(names[1..], "\n") + "\n";
      assert Render(names) == names[0] + "\n" + (Join(names[1..], "\n") + "\n");
    }
  }

  /**
    Python's `s.split("\n")`: the newline-free pieces between newlines, always
    at least one, which joined by newlines give back `s`.
   */
  function SplitLines(s: string): (pieces: seq<string>)
    ensures |pieces| >= 1
    ensures forall k :: 0 <= k < |pieces| ==> '\n' !in pieces[k]
    ensures Join(pieces, "\n") == s
    decreases |s|
  {
    if |s| == 0 then [""]
    else
      var rest := SplitLines(s[1..]);
      assert s == [s[0]] + s[1..];
      if s[0] == '\n' then
        assert ([""] + rest)[1..] == rest;
        [""] + rest
      else
        var first := [s[0]] + rest[0];
        assert ([first] + rest[1..])[1..] == rest[1..];
        assert |rest| > 1 ==> Join(rest, "\n") == rest[0] + "\n" + Join(rest[1..], "\n");
        [first] + rest[1..]
  }

  /** A newline-free text is one piece. */
  lemma {:induction false} SplitSingleLine(line: string)
    requires '\n' !in line
    ensures SplitLines(line) == [line]
    decreases |line|
  {
    if |line| > 0 {
      SplitSingleLine(line[1..]);
      assert [line[0]] + line[1..] == line;
    }
  }

  /** Reading the text back: split on newlines, dropping the empty piece after the last one. */
  function ReadLines(text: string): seq<string>
  {
    var pieces := SplitLines(text);
    pieces[..|pieces| - 1]
  }

  /** Splitting after a newline-free line peels off that line. */
  lemma {:induction false} SplitAfterLine(line: string, rest: string)
    requires '\n' !in line
    ensures SplitLines(line + "\n" + rest) == [line] + SplitLines(rest)
    decreases |line|
  {
    var s := line + "\n" + rest;
    if |line| == 0 {
      assert s[1..] == rest;
    } else {
      assert s[1..] == line[1..] + "\n" + rest;
      SplitAfterLine(line[1..], rest);
      assert [line[0]] + line[1..] == line;
    }
  }

  /** Splitting newline-free pieces joined by newlines gives back the pieces. */
  lemma {:induction false} SplitJoined(pieces: seq<string>)
    requires |pieces| >= 1
    requires forall k :: 0 <= k < |pieces| ==> '\n' !in pieces[k]
    ensures SplitLines(Join(pieces, "\n")) == pieces
    decreases |pieces|
  {
    if |pieces| == 1 {
      SplitSingleLine(pieces[0]);
    } else {
      SplitAfterLine(pieces[0], Join(pieces[1..], "\n"));
      SplitJoined(pieces[1..]);
      assert pieces == [pieces[0]] + pieces[1..];
    }
  }

  /** The terminated text is the names and one final empty piece, joined by newlines. */
  lemma {:induction false} TerminatedIsJoin(names: seq<string>)
    ensures Terminated(names) == Join(names + [""], "\n")
    decreases |names|
  {
    if |names| > 0 {
      TerminatedIsJoin(names[1..]);
      assert (names + [""])[1..] == names[1..] + [""];
    }
  }

  /** Splitting the terminated text gives the names and one final empty piece. */
  lemma SplitTerminated(names: seq<string>)
    requires forall k :: 0 <= k < |names| ==> '\n' !in names[k]
    ensures SplitLines(Terminated(names)) == names + [""]
  {
    var pieces := names + [""];
    forall k | 0 <= k < |pieces|
      ensures '\n' !in pieces[k]
    {
      if k < |names| {
        assert pieces[k] == names[k];
      }
    }
    TerminatedIsJoin(names);
    SplitJoined(pieces);
  }

  /** Reading back the written text gives the names again, when no name holds a newline. */
  lemma ReadBackRendered(names: seq<string>)
    requires forall k :: 0 <= k < |names| ==> '\n' !in names[k]
    ensures ReadLines(Render(names)) == names
  {
    RenderIsTerminated(names);
    SplitTerminated(names);
    assert (names + [""])[..|names|] == names;
  }
}
