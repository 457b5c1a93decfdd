/**
 * The row loop of `main`: each CSV row's identifier is resolved and the row
 * lands in the manifest's entries or in the missing list.
 */
module Manifest {
  import opened Wrappers
  import opened Text
  import opened Headers
  import opened Resolver

  /**
   * A CSV row as `csv.DictReader` gives it: original header to cell text, with
   * `None` for the cells a short row lacks.
   */
  type Row = map<string, Option<string>>

  /** One manifest entry: the identifier exactly as read, and its two URLs. */
  datatype Entry = Entry(uniprotId: string, structureCif: string, sequenceFasta: string)

  /**
   * The document written to `entries.json` (`count` and `entries`), together with
   * the identifiers that could not be resolved, in the order they were met.
   */
  datatype Manifest = Manifest(count: nat, entries: seq<Entry>, missing: seq<string>)

  /** The two lists the row loop fills. */
  datatype Lists = Lists(entries: seq<Entry>, missing: seq<string>)

  /** Both lists of `x`, each followed by the matching list of `y`. */
  function Concat(x: Lists, y: Lists): Lists {
    Lists(x.entries + y.entries, x.missing + y.missing)
  }

  /** Appending nothing, one missing identifier or one entry. */
  lemma ConcatUnits(x: Lists, uid: string, e: Entry)
    ensures Concat(x, Lists([], [])) == x
    ensures Concat(x, Lists([], [uid])) == Lists(x.entries, x.missing + [uid])
    ensures Concat(x, Lists([e], [])) == Lists(x.entries + [e], x.missing)
  {
    assert x.entries + [] == x.entries;
    assert x.missing + [] == x.missing;
  }

  lemma ConcatAssoc(x: Lists, y: Lists, z: Lists)
    ensures Concat(Concat(x, y), z) == Concat(x, Concat(y, z))
  {
    assert x.entries + y.entries + z.entries == x.entries + (y.entries + z.entries);
    assert x.missing + y.missing + z.missing == x.missing + (y.missing + z.missing);
  }

  /** No header names the identifier column; the run stops and reports the headers it saw. */
  datatype ConfigError = NoIdentifierColumn(fieldnames: seq<Option<string>>)

  /** `str(row.get(uid_field, ""))`: an absent key reads as "", a short row's `None` as "None". */
  function CellText(row: Row, field: string): string {
    if field !in row then ""
    else match row[field]
      case None => "None"
      case Some(v) => v
  }

  /** `str(row.get(uid_field, "")).strip()`. */
  function RowIdentifier(row: Row, field: string): string {
    Strip(CellText(row, field))
  }

  /** `f"{RAW_BASE}/{rel}"`. */
  function Url(rawBase: string, rel: string): (u: string)
    ensures |u| == |rawBase| + 1 + |rel|
    ensures u[..|rawBase|] == rawBase && u[|rawBase|] == '/' && u[|rawBase| + 1..] == rel
  {
    rawBase + "/" + rel
  }

  /**
   * What one row adds to the entries and to the missing list: nothing for a blank
   * identifier, an entry when both files resolve, the identifier otherwise.
   */
  function Contribution(fs: FileSystem, rawBase: string, field: string, row: Row): Lists
  {
    var uid := RowIdentifier(row, field);
    if uid == "" then Lists([], [])
    else
      var (cif, fasta) := Resolve(fs, uid);
      if cif.Some? && fasta.Some? then Lists([Entry(uid, Url(rawBase, cif.value), Url(rawBase, fasta.value))], [])
      else Lists([], [uid])
  }

  /** The entries and the missing identifiers that `rows` produce, in row order. */
  function Collect(fs: FileSystem, rawBase: string, field: string, rows: seq<Row>): Lists
  {
    if rows == [] then Lists([], [])
    else
      Concat(Collect(fs, rawBase, field, rows[..|rows| - 1]), Contribution(fs, rawBase, field, rows[|rows| - 1]))
  }

  /** Taking one more row appends that row's contribution. */
  lemma CollectStep(fs: FileSystem, rawBase: string, field: string, rows: seq<Row>, i: int)
    requires 0 <= i < |rows|
    ensures Collect(fs, rawBase, field, rows[..i + 1])
         == Concat(Collect(fs, rawBase, field, rows[..i]), Contribution(fs, rawBase, field, rows[i]))
  {
    assert rows[..i + 1][..i] == rows[..i];
  }

  /** The header `locate_uid_field` returns is never empty, so `not uid_field` only catches `None`. */
  lemma LocatedHeaderNonEmpty(fieldnames: seq<Option<string>>)
    ensures LocateUidField(fieldnames).Some? ==> LocateUidField(fieldnames).value != ""
  {
    if LocateUidField(fieldnames).Some? {
      LocateUidFieldSome(fieldnames);
    }
  }

  /** Resolved relative paths are never empty, so `not (cif_rel and fasta_rel)` only catches `None`. */
  lemma ResolvedPathsNonEmpty(fs: FileSystem, uid: string)
    ensures Resolve(fs, uid).0.Some? ==> Resolve(fs, uid).0.value != "" && Resolve(fs, uid).1.value != ""
  {
    if Resolve(fs, uid).0.Some? {
      ResolveSucceeds(fs, uid);
    }
  }

  /**
   * `main` after the CSV is parsed: locate the identifier column, then resolve
   * each row in turn, appending to `entries` or to `missing`.
   */
  method BuildManifest(fieldnames: seq<Option<string>>, rows: seq<Row>, fs: FileSystem, rawBase: string)
    returns (r: Result<Manifest, ConfigError>)
    ensures r.Failure? <==> LocateUidField(fieldnames).None?
    ensures r.Failure? ==> r.error == NoIdentifierColumn(fieldnames)
    ensures r.Success? ==>
              && r.value.count == |r.value.entries|
              && Lists(r.value.entries, r.value.missing) == Collect(fs, rawBase, LocateUidField(fieldnames).value, rows)
  {
    var entries: seq<Entry> := [];
    var missing: seq<string> := [];

    var uidField := LocateUidField(fieldnames);
    LocatedHeaderNonEmpty(fieldnames);
    if uidField.None? || uidField.value == "" {
      return Failure(NoIdentifierColumn(fieldnames));
    }
    var field := uidField.value;

    for i := 0 to |rows|
      invariant Lists(entries, missing) == Collect(fs, rawBase, field, rows[..i])
    {
      CollectStep(fs, rawBase, field, rows, i);
      ghost var before := Lists(entries, missing);
      var uid := Strip(CellText(rows[i], field));
      if uid == "" {
        assert Contribution(fs, rawBase, field, rows[i]) == Lists([], []);
        ConcatUnits(before, uid, Entry(uid, "", ""));
        continue;
      }
      var cifRel, fastaRel := FindFilesFor(fs, uid);
      ResolvedPathsNonEmpty(fs, uid);
      if cifRel.None? || fastaRel.None? || cifRel.value == "" || fastaRel.value == "" {
        assert Contribution(fs, rawBase, field, rows[i]) == Lists([], [uid]);
        ConcatUnits(before, uid, Entry(uid, "", ""));
        missing := missing + [uid];
        continue;
      }
      var entry := Entry(uid, Url(rawBase, cifRel.value), Url(rawBase, fastaRel.value));
      assert Contribution(fs, rawBase, field, rows[i]) == Lists([entry], []);
      ConcatUnits(before, uid, entry);
      entries := entries + [entry];
    }
    assert rows[..|rows|] == rows;
    return Success(Manifest(|entries|, entries, missing));
  }

  /**
   * Rows are processed independently and in order: the lists produced by two
   * batches of rows, one after the other, are the concatenations of their lists.
   */
  lemma {:induction false} CollectAppend(fs: FileSystem, rawBase: string, field: string, a: seq<Row>, b: seq<Row>)
    ensures Collect(fs, rawBase, field, a + b) == Concat(Collect(fs, rawBase, field, a), Collect(fs, rawBase, field, b))
    decreases |b|
  {
    if b == [] {
      assert a + b == a;
    } else {
      var b' := b[..|b| - 1];
      assert (a + b)[..|a + b| - 1] == a + b';
      assert (a + b)[|a + b| - 1] == b[|b| - 1];
      CollectAppend(fs, rawBase, field, a, b');
      ConcatAssoc(Collect(fs, rawBase, field, a), Collect(fs, rawBase, field, b'), Contribution(fs, rawBase, field, b[|b| - 1]));
    }
  }

  /** Entry `e` is what a successful resolution of its identifier produces. */
  ghost predicate IsResolvedEntry(fs: FileSystem, rawBase: string, e: Entry) {
    var r := Resolve(fs, e.uniprotId);
    && e.uniprotId != "" && Strip(e.uniprotId) == e.uniprotId
    && r.0.Some? && r.1.Some?
    && e.structureCif == rawBase + "/" + r.0.value
    && e.sequenceFasta == rawBase + "/" + r.1.value
  }

  /** `uid` is a trimmed, non-blank identifier whose resolution failed. */
  ghost predicate IsMissing(fs: FileSystem, uid: string) {
    uid != "" && Strip(uid) == uid && Resolve(fs, uid).0.None? && Resolve(fs, uid).1.None?
  }

  /**
   * Every entry carries a trimmed identifier that resolved, with both URLs formed
   * as `RAW_BASE + "/" + rel`; every missing identifier is trimmed, non-blank and
   * failed to resolve.
   */
  lemma {:induction false} CollectSound(fs: FileSystem, rawBase: string, field: string, rows: seq<Row>)
    ensures forall e :: e in Collect(fs, rawBase, field, rows).entries ==> IsResolvedEntry(fs, rawBase, e)
    ensures forall uid :: uid in Collect(fs, rawBase, field, rows).missing ==> IsMissing(fs, uid)
  {
    if rows != [] {
      var n := |rows| - 1;
      CollectSound(fs, rawBase, field, rows[..n]);
      var uid := RowIdentifier(rows[n], field);
      if uid != "" {
        StripIdempotent(CellText(rows[n], field));
      }
    }
  }

  /** The trimmed identifiers of the non-blank rows, in row order. */
  function NonBlankIdentifiers(field: string, rows: seq<Row>): seq<string>
  {
    if rows == [] then []
    else
      var uid := RowIdentifier(rows[|rows| - 1], field);
      NonBlankIdentifiers(field, rows[..|rows| - 1]) + (if uid == "" then [] else [uid])
  }

  /** The identifiers of a list of entries. */
  function EntryIds(entries: seq<Entry>): seq<string>
  {
    if entries == [] then [] else [entries[0].uniprotId] + EntryIds(entries[1..])
  }

  lemma {:induction false} EntryIdsAppend(a: seq<Entry>, b: seq<Entry>)
    ensures EntryIds(a + b) == EntryIds(a) + EntryIds(b)
    decreases |a|
  {
    if a != [] {
      assert (a + b)[1..] == a[1..] + b;
      EntryIdsAppend(a[1..], b);
    } else {
      assert a + b == b;
    }
  }

  /** The identifiers a list of entries and missing identifiers accounts for, with repetitions. */
  function Accounted(c: Lists): multiset<string> {
    multiset(EntryIds(c.entries)) + multiset(c.missing)
  }

  /** A row accounts for its trimmed identifier once, in one of the two lists, unless that is blank. */
  lemma ContributionAccounts(fs: FileSystem, rawBase: string, field: string, row: Row)
    ensures var uid := RowIdentifier(row, field);
            Accounted(Contribution(fs, rawBase, field, row)) == multiset(if uid == "" then [] else [uid])
  {
    var uid := RowIdentifier(row, field);
    var c := Contribution(fs, rawBase, field, row);
    if uid != "" && Resolve(fs, uid).0.Some? {
      var e := Entry(uid, Url(rawBase, Resolve(fs, uid).0.value), Url(rawBase, Resolve(fs, uid).1.value));
      assert c.entries == [e] && c.missing == [];
      assert EntryIds([e]) == [uid] + EntryIds([]);
    }
  }

  lemma ConcatAccounts(x: Lists, y: Lists)
    ensures Accounted(Concat(x, y)) == Accounted(x) + Accounted(y)
  {
    EntryIdsAppend(x.entries, y.entries);
  }

  /**
   * Each non-blank row lands in exactly one of the two lists, and blank rows in
   * neither: counted with repetitions, the identifiers of the entries and the
   * missing identifiers are exactly the trimmed identifiers of the non-blank rows.
   */
  lemma {:induction false} CollectAccountsForEveryRow(fs: FileSystem, rawBase: string, field: string, rows: seq<Row>)
    ensures Accounted(Collect(fs, rawBase, field, rows)) == multiset(NonBlankIdentifiers(field, rows))
  {
    if rows != [] {
      var n := |rows| - 1;
      CollectAccountsForEveryRow(fs, rawBase, field, rows[..n]);
      ConcatAccounts(Collect(fs, rawBase, field, rows[..n]), Contribution(fs, rawBase, field, rows[n]));
      ContributionAccounts(fs, rawBase, field, rows[n]);
    }
  }

  /** Hence the two lists together are exactly as long as the list of non-blank rows. */
  lemma CollectTotal(fs: FileSystem, rawBase: string, field: string, rows: seq<Row>)
    ensures var c := Collect(fs, rawBase, field, rows);
            |c.entries| + |c.missing| == |NonBlankIdentifiers(field, rows)|
  {
    var c := Collect(fs, rawBase, field, rows);
    CollectAccountsForEveryRow(fs, rawBase, field, rows);
    EntryIdsLength(c.entries);
    assert |multiset(EntryIds(c.entries))| + |multiset(c.missing)| == |multiset(NonBlankIdentifiers(field, rows))|;
  }

  lemma {:induction false} EntryIdsLength(entries: seq<Entry>)
    ensures |EntryIds(entries)| == |entries|
  {
    if entries != [] {
      EntryIdsLength(entries[1..]);
    }
  }

  /** A short row, whose identifier cell `csv.DictReader` fills with `None`, is read as the identifier "None". */
  lemma ShortRowReadsNone(row: Row, field: string)
    requires field in row && row[field] == None
    ensures RowIdentifier(row, field) == "None"
  {
    assert LeadingSpaces("None") == 0;
    assert "None"[0..] == "None";
    assert TrailingStart("None") == 4;
  }
}
