/**
 * `find_files_for`: the structure file and the sequence file of one identifier,
 * searched in a snapshot of the dataset tree rather than on disk.
 */
module Resolver {
  import opened Wrappers
  import opened Text

  /** A path relative to the dataset root (`DATA_PARENT`), one string per segment. */
  type Path = seq<string>

  /**
   * A snapshot of the dataset tree: its directories, and its regular files in
   * the order a recursive walk (`rglob`) yields them.
   */
  datatype FileSystem = FileSystem(dirs: set<Path>, files: seq<Path>)

  /** `DATA_PARENT / uid / f"{uid}_Boltz-2"`, where structure models live. */
  function StructureDir(uid: string): Path {
    [uid, uid + "_Boltz-2"]
  }

  /** `DATA_PARENT / uid / f"{uid}_Sequence"`, where the sequence file lives. */
  function SequenceDir(uid: string): Path {
    [uid, uid + "_Sequence"]
  }

  /** `seq_dir / f"{uid}.fasta"`. */
  function SequenceFile(uid: string): Path {
    SequenceDir(uid) + [uid + ".fasta"]
  }

  /** The text the structure file's name must contain. */
  function StructurePattern(uid: string): string {
    "monomer_Boltz-2_" + uid
  }

  /** `path.relative_to(DATA_PARENT).as_posix()` for a path already relative to the root. */
  function Posix(p: Path): string {
    JoinWith("/", p)
  }

  /** `f.suffix.lower() in (".cif", ".mmcif")`. */
  predicate HasStructureSuffix(name: string) {
    Lower(Suffix(name)) == ".cif" || Lower(Suffix(name)) == ".mmcif"
  }

  /**
   * A file the structure search accepts for `uid`: strictly below the structure
   * directory, with a `.cif` or `.mmcif` suffix in any case, and a name that
   * contains `monomer_Boltz-2_<uid>` anywhere, with no check of what follows it.
   */
  predicate IsStructureFile(uid: string, p: Path) {
    && |p| > 2 && p[..2] == StructureDir(uid)
    && HasStructureSuffix(p[|p| - 1])
    && Contains(p[|p| - 1], StructurePattern(uid))
  }

  /** `files[i]` is the first file in walk order that `accept` admits. */
  ghost predicate FirstAt(accept: Path -> bool, files: seq<Path>, i: int) {
    && 0 <= i < |files| && accept(files[i])
    && forall j :: 0 <= j < i ==> !accept(files[j])
  }

  /** The position of the first file in walk order that `accept` admits, if any. */
  function FirstWhere(accept: Path -> bool, files: seq<Path>): (r: Option<nat>)
    ensures r.Some? ==> r.value < |files|
  {
    if files == [] then None
    else if accept(files[0]) then Some(0)
    else
      match FirstWhere(accept, files[1..])
      case None => None
      case Some(i) => Some(i + 1)
  }

  /** The search finds the first admitted file, and finds nothing only when no file is admitted. */
  lemma {:induction false} FirstWhereSpec(accept: Path -> bool, files: seq<Path>)
    ensures FirstWhere(accept, files).Some? ==> FirstAt(accept, files, FirstWhere(accept, files).value)
    ensures FirstWhere(accept, files).None? <==> forall j :: 0 <= j < |files| ==> !accept(files[j])
  {
    if files != [] && !accept(files[0]) {
      var tail := files[1..];
      FirstWhereSpec(accept, tail);
      assert forall j :: 1 <= j < |files| ==> files[j] == tail[j - 1];
      match FirstWhere(accept, tail)
      case None =>
      case Some(i) =>
        assert FirstAt(accept, files, i + 1);
    }
  }

  /** The test the structure search applies to each file. */
  function StructureTest(uid: string): Path -> bool {
    p => IsStructureFile(uid, p)
  }

  /** There is at most one first admitted file. */
  lemma FirstAtUnique(accept: Path -> bool, files: seq<Path>, i: int, k: int)
    requires FirstAt(accept, files, i) && FirstAt(accept, files, k)
    ensures i == k
  {
  }

  /** The last dot of `x + ext`, when `ext` is a dot followed by dot-free characters, starts `ext`. */
  lemma LastDotStartsExtension(x: string, ext: string)
    requires ext != [] && ext[0] == '.' && forall k :: 1 <= k < |ext| ==> ext[k] != '.'
    ensures LastIndexOf(x + ext, '.') == Some(|x|)
  {
    var name := x + ext;
    LastIndexOfSpec(name, '.');
    assert name[|x|] == '.';
    assert forall k :: |x| < k < |name| ==> name[k] == ext[k - |x|];
  }

  /**
   * The name test is a plain substring test with no check of what follows the
   * identifier: the structure file named for any identifier that extends `uid`
   * (`P050671` for `P05067`) is accepted when it sits under `uid`'s structure
   * directory.
   */
  lemma ExtendedIdentifierAccepted(uid: string, extra: string)
    ensures IsStructureFile(uid, StructureDir(uid) + [StructurePattern(uid + extra) + ".cif"])
  {
    var x := StructurePattern(uid + extra);
    var name := x + ".cif";
    var p := StructureDir(uid) + [name];
    assert p[..2] == StructureDir(uid);
    assert p[|p| - 1] == name;
    LastDotStartsExtension(x, ".cif");
    assert Suffix(name) == name[|x|..];
    assert name[|x|..] == ".cif";
    assert Lower(".cif") == ".cif";
    assert name[..|StructurePattern(uid)|] == StructurePattern(uid);
    assert OccursAt(name, StructurePattern(uid), 0);
    ContainsAt(name, StructurePattern(uid));
  }

  /** The file `monomer_Boltz-2_P050671.cif` under `P05067/P05067_Boltz-2/` is accepted for `P05067`. */
  lemma LongerIdentifierAccepted()
    ensures IsStructureFile("P05067", StructureDir("P05067") + [StructurePattern("P050671") + ".cif"])
  {
    assert "P050671" == "P05067" + "1";
    ExtendedIdentifierAccepted("P05067", "1");
  }

  /**
   * What `find_files_for` returns: both relative paths, or `(None, None)` when the
   * identifier's directory, a structure file or the sequence file is missing.
   */
  function Resolve(fs: FileSystem, uid: string): (r: (Option<string>, Option<string>))
    ensures r.0.Some? <==> r.1.Some?
  {
    if [uid] !in fs.dirs then (None, None)
    else
      var cif := if StructureDir(uid) in fs.dirs then FirstWhere(StructureTest(uid), fs.files) else None;
      var fasta := SequenceDir(uid) in fs.dirs && SequenceFile(uid) in fs.files;
      if cif.None? || !fasta then (None, None)
      else (Some(Posix(fs.files[cif.value])), Some(Posix(SequenceFile(uid))))
  }

  /**
   * Resolution fails exactly when the identifier is not a directory under the
   * root, no structure file qualifies, or the sequence file is absent.
   */
  lemma ResolveFails(fs: FileSystem, uid: string)
    ensures Resolve(fs, uid).0.None? <==>
              || [uid] !in fs.dirs
              || StructureDir(uid) !in fs.dirs
              || (forall j :: 0 <= j < |fs.files| ==> !IsStructureFile(uid, fs.files[j]))
              || SequenceDir(uid) !in fs.dirs
              || SequenceFile(uid) !in fs.files
  {
    FirstWhereSpec(StructureTest(uid), fs.files);
  }

  /**
   * On success the sequence path is exactly `uid/uid_Sequence/uid.fasta`, and the
   * structure path is that of the first accepted file in walk order, which lies
   * below `uid/uid_Boltz-2/`.
   */
  lemma ResolveSucceeds(fs: FileSystem, uid: string)
    requires Resolve(fs, uid).0.Some?
    ensures Resolve(fs, uid).1 == Some(uid + "/" + (uid + "_Sequence") + "/" + (uid + ".fasta"))
    ensures exists i :: && FirstAt(StructureTest(uid), fs.files, i)
                        && Resolve(fs, uid).0 == Some(Posix(fs.files[i]))
                        && Posix(fs.files[i]) == uid + "/" + (uid + "_Boltz-2") + "/" + Posix(fs.files[i][2..])
  {
    SequencePosix(uid);
    FirstWhereSpec(StructureTest(uid), fs.files);
    var i := FirstWhere(StructureTest(uid), fs.files).value;
    StructurePosix(uid, fs.files[i]);
  }

  lemma SequencePosix(uid: string)
    ensures Posix(SequenceFile(uid)) == uid + "/" + (uid + "_Sequence") + "/" + (uid + ".fasta")
  {
    var a, b, c := uid, uid + "_Sequence", uid + ".fasta";
    assert SequenceFile(uid) == [a] + [b, c];
    JoinWithCons("/", a, [b, c]);
    assert [b, c] == [b] + [c];
    JoinWithCons("/", b, [c]);
  }

  lemma StructurePosix(uid: string, p: Path)
    requires |p| > 2 && p[..2] == StructureDir(uid)
    ensures Posix(p) == uid + "/" + (uid + "_Boltz-2") + "/" + Posix(p[2..])
  {
    assert p == [p[0]] + p[1..];
    JoinWithCons("/", p[0], p[1..]);
    assert p[1..] == [p[1]] + p[2..];
    JoinWithCons("/", p[1], p[2..]);
  }

  /** `find_files_for(uid)` over the snapshot `fs`. */
  method FindFilesFor(fs: FileSystem, uid: string) returns (cifRel: Option<string>, fastaRel: Option<string>)
    ensures (cifRel, fastaRel) == Resolve(fs, uid)
  {
    if [uid] !in fs.dirs {
      return None, None;
    }
    var boltzDir := StructureDir(uid);
    var seqDir := SequenceDir(uid);
    var cifPath: Option<Path> := None;
    var fastaPath: Option<Path> := None;

    if boltzDir in fs.dirs {
      var i := 0;
      while i < |fs.files|
        invariant 0 <= i <= |fs.files|
        invariant forall j :: 0 <= j < i ==> !IsStructureFile(uid, fs.files[j])
        invariant cifPath == None
      {
        var f := fs.files[i];
        if |f| > 2 && f[..2] == boltzDir && HasStructureSuffix(f[|f| - 1]) {
          if Contains(f[|f| - 1], StructurePattern(uid)) {
            cifPath := Some(f);
            assert FirstAt(StructureTest(uid), fs.files, i);
            break;
          }
        }
        i := i + 1;
      }
      ghost var first := FirstWhere(StructureTest(uid), fs.files);
      FirstWhereSpec(StructureTest(uid), fs.files);
      if cifPath.Some? {
        FirstAtUnique(StructureTest(uid), fs.files, i, first.value);
      }
      assert cifPath == if first.Some? then Some(fs.files[first.value]) else None;
    }

    if seqDir in fs.dirs {
      var cand := seqDir + [uid + ".fasta"];
      if cand in fs.files {
        fastaPath := Some(cand);
      }
    }

    if cifPath.None? || fastaPath.None? {
      return None, None;
    }
    return Some(Posix(cifPath.value)), Some(Posix(fastaPath.value));
  }
}
