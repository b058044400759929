/**
 * Picking the latest version directory: `load_latest_rag_version` of
 * `rag_builder.py` (any subdirectory of the vector-store directory) and
 * `get_latest_version_dir` of `boost_docs.py` (all-digit subdirectories of
 * the documentation directory). Both take the greatest name in Python's
 * string order; for the fixed-width timestamps the program writes, that is
 * the most recent one.
 */
module Versions {
  import opened Wrappers
  import opened Text
  import opened Sorting

  /** One name returned by `os.listdir`, and whether it is a directory. */
  datatype DirEntry = DirEntry(name: string, isDir: bool)

  /** Why `load_latest_rag_version` raises. */
  datatype VersionError = ApiKeyMissing | PersistDirMissing | NoVersions

  const ParentPersistDirectory: string := "./chroma_db"

  /** The names of the subdirectories, in listing order. */
  function DirNames(entries: seq<DirEntry>): (r: seq<string>)
    ensures forall n :: n in r <==> exists e :: e in entries && e.isDir && e.name == n
    ensures forall e :: e in entries && e.isDir ==> e.name in r
  {
    if entries == [] then []
    else
      assert forall e :: e in entries <==> e == entries[0] || e in entries[1..];
      (if entries[0].isDir then [entries[0].name] else []) + DirNames(entries[1..])
  }

  /** The names of the subdirectories whose name is all digits, in listing order. */
  function DigitDirNames(entries: seq<DirEntry>): (r: seq<string>)
    ensures forall n :: n in r <==> exists e :: e in entries && e.isDir && IsDigits(e.name) && e.name == n
    ensures forall e :: e in entries && e.isDir && IsDigits(e.name) ==> e.name in r
  {
    if entries == [] then []
    else
      assert forall e :: e in entries <==> e == entries[0] || e in entries[1..];
      (if entries[0].isDir && IsDigits(entries[0].name) then [entries[0].name] else [])
      + DigitDirNames(entries[1..])
  }

  /**
   * `load_latest_rag_version` without the store itself: the checks in the
   * order the program makes them, then the greatest subdirectory name and
   * the directory the store is opened from.
   */
  function LoadLatestRagVersion(apiKeyConfigured: bool, parentExists: bool, entries: seq<DirEntry>)
    : (r: Result<(string, string), VersionError>)
    ensures !apiKeyConfigured ==> r == Err(ApiKeyMissing)
    ensures apiKeyConfigured && !parentExists ==> r == Err(PersistDirMissing)
    ensures apiKeyConfigured && parentExists ==>
      (r == Err(NoVersions) <==> forall e :: e in entries ==> !e.isDir)
    ensures r.Ok? ==>
      var (latest, dir) := r.value;
      DirEntry(latest, true) in entries
      && (forall e :: e in entries && e.isDir ==> StrLe(e.name, latest))
      && dir == JoinPath(ParentPersistDirectory, latest)
  {
    if !apiKeyConfigured then Err(ApiKeyMissing)
    else if !parentExists then Err(PersistDirMissing)
    else
      var versionDirs := DirNames(entries);
      if versionDirs == [] then Err(NoVersions)
      else
        var latest := SortDescending(versionDirs)[0];
        FirstOfDescendingIsGreatest(versionDirs);
        assert exists e :: e in entries && e.isDir && e.name == latest;
        Ok((latest, JoinPath(ParentPersistDirectory, latest)))
  }

  /**
   * `get_latest_version_dir`: `None` when no subdirectory has an all-digit
   * name, otherwise the path of the greatest such name.
   */
  function GetLatestVersionDir(frontDir: string, entries: seq<DirEntry>): (r: Option<string>)
    ensures r.None? <==> forall e :: e in entries ==> !(e.isDir && IsDigits(e.name))
    ensures r.Some? ==> exists e :: (e in entries && e.isDir && IsDigits(e.name)
      && r.value == JoinPath(frontDir, e.name)
      && forall e' :: e' in entries && e'.isDir && IsDigits(e'.name) ==> StrLe(e'.name, e.name))
  {
    var versionDirs := DigitDirNames(entries);
    if versionDirs == [] then None
    else
      var latest := SortDescending(versionDirs)[0];
      FirstOfDescendingIsGreatest(versionDirs);
      assert exists e :: e in entries && e.isDir && IsDigits(e.name) && e.name == latest;
      Some(JoinPath(frontDir, latest))
  }

  // ---------------------------------------------------------------------
  // String order of digit strings
  // ---------------------------------------------------------------------

  function DigitValue(c: char): nat
    requires IsDigit(c)
  {
    c as int - '0' as int
  }

  /** The number a string of decimal digits denotes. */
  function Value(s: string): nat
    requires forall i :: 0 <= i < |s| ==> IsDigit(s[i])
  {
    if s == [] then 0 else DigitValue(s[0]) * Pow10(|s| - 1) + Value(s[1..])
  }

  /** n digits denote a number below 10^n. */
  lemma {:induction false} ValueBound(s: string)
    requires forall i :: 0 <= i < |s| ==> IsDigit(s[i])
    ensures Value(s) < Pow10(|s|)
  {
    if s != [] {
      ValueBound(s[1..]);
      DigitTimesPower(DigitValue(s[0]), Pow10(|s| - 1));
    }
  }

  lemma DigitTimesPower(d: nat, p: nat)
    requires d <= 9
    ensures d * p + p <= 10 * p
  {
  }

  /** A smaller leading digit wins whatever follows it. */
  lemma LeadingDigitDecides(da: nat, db: nat, p: nat, ra: nat, rb: nat)
    requires da < db && ra < p
    ensures da * p + ra < db * p + rb
  {
    MulStep(da, p);
    MulMono(da + 1, db, p);
  }

  lemma MulStep(a: nat, p: nat)
    ensures (a + 1) * p == a * p + p
  {
  }

  lemma {:induction false} MulMono(x: nat, y: nat, p: nat)
    requires x <= y
    ensures x * p <= y * p
    decreases y - x
  {
    if x < y {
      MulMono(x, y - 1, p);
      MulStep(y - 1, p);
    }
  }

  /** For digit strings of one length, string order implies numeric order. */
  lemma {:induction false} DigitsOrderIsNumericLt(a: string, b: string)
    requires forall i :: 0 <= i < |a| ==> IsDigit(a[i])
    requires forall i :: 0 <= i < |b| ==> IsDigit(b[i])
    requires |a| == |b| && StrLt(a, b)
    ensures Value(a) < Value(b)
  {
    if a[0] == b[0] {
      DigitsOrderIsNumericLt(a[1..], b[1..]);
    } else {
      ValueBound(a[1..]);
      LeadingDigitDecides(DigitValue(a[0]), DigitValue(b[0]), Pow10(|a| - 1), Value(a[1..]), Value(b[1..]));
    }
  }

  lemma DigitsOrderIsNumeric(a: string, b: string)
    requires IsDigits(a) && IsDigits(b) && |a| == |b|
    ensures StrLt(a, b) <==> Value(a) < Value(b)
  {
    StrLtTotal(a, b);
    if StrLt(a, b) {
      DigitsOrderIsNumericLt(a, b);
    } else if StrLt(b, a) {
      DigitsOrderIsNumericLt(b, a);
    }
  }
}
