/** The argument processing of `GeneralUtil.to_csv`: where the zip archive goes and
    what the CSV file inside it is called. The DataFrame write itself is not modelled. */
module CsvArchive {
  import opened Wrappers
  import opened Text

  /** `dir[-1]` on an empty directory string raises an `IndexError`. */
  datatype ToCsvError = IndexError

  /** The target path of the `.zip` file and the `archive_name` given to pandas. */
  datatype Target = Target(path: string, archiveName: string)

  /** `re.sub('\.csv', '', s)`: a single left-to-right pass deleting every
      non-overlapping occurrence of `.csv` it meets. */
  function RemoveCsv(s: string): (r: string)
    ensures |r| <= |s| && (|s| - |r|) % 4 == 0
    ensures r == s <==> !HasInfix(s, ".csv")
    decreases |s|
  {
    if |s| >= 4 && s[..4] == ".csv" then RemoveCsv(s[4..])
    else if s == [] then []
    else [s[0]] + RemoveCsv(s[1..])
  }

  /** `dir` with one trailing `/` removed, if it has one. */
  function StripSlash(dir: string): (d: string)
    requires dir != []
    ensures dir[|dir| - 1] == '/' ==> d + "/" == dir
    ensures dir[|dir| - 1] != '/' ==> d == dir
  {
    if dir[|dir| - 1] == '/' then dir[..|dir| - 1] else dir
  }

  /** `to_csv` up to the pandas call: strip one trailing `/` from `dir`, remove `.csv`
      from `zip_name` if it occurs, default `file_name` to the processed `zip_name`,
      then build `dir/zip_name.zip` and `file_name.csv`. */
  function ToCsvTarget(zipName: string, dir: string, fileName: Option<string>): (r: Result<Target, ToCsvError>)
    ensures r.Err? <==> dir == []
    ensures r.Ok? ==> r.value.path == StripSlash(dir) + "/" + RemoveCsv(zipName) + ".zip"
    ensures r.Ok? && fileName.None? ==> r.value.archiveName == RemoveCsv(zipName) + ".csv"
    ensures r.Ok? && fileName.Some? ==> r.value.archiveName == fileName.value + ".csv"
  {
    if dir == [] then Err(IndexError)
    else
      var dir' := StripSlash(dir);
      var zipName' := if HasInfix(zipName, ".csv") then RemoveCsv(zipName) else zipName;
      var fileName' := if fileName.None? then zipName' else fileName.value;
      Ok(Target(dir' + "/" + zipName' + ".zip", fileName' + ".csv"))
  }

  /** Every occurrence of `.csv` that the scan reaches is removed, and what lies on
      either side of it is scanned independently (`.csv` cannot overlap itself). */
  lemma {:induction false} RemoveCsvAround(a: string, b: string)
    ensures RemoveCsv(a + ".csv" + b) == RemoveCsv(a) + RemoveCsv(b)
    decreases |a|
  {
    var s := a + ".csv" + b;
    if a == [] {
      assert s == ".csv" + b;
      RemoveCsvDrop(s);
      assert s[4..] == b;
    } else if |a| >= 4 && a[..4] == ".csv" {
      var a' := a[4..];
      assert s[..4] == ".csv";
      assert s[4..] == a' + ".csv" + b;
      RemoveCsvDrop(s);
      RemoveCsvDrop(a);
      RemoveCsvAround(a', b);
    } else {
      var a' := a[1..];
      NoMatchAcrossJunction(a, ".csv" + b);
      assert s == a + (".csv" + b);
      assert s[1..] == a' + ".csv" + b;
      RemoveCsvSkip(s);
      RemoveCsvSkip(a);
      RemoveCsvAround(a', b);
      SeqAssoc([a[0]], RemoveCsv(a'), RemoveCsv(b));
    }
  }

  /** One step of the scan over a leading `.csv`. */
  lemma RemoveCsvDrop(s: string)
    requires |s| >= 4 && s[..4] == ".csv"
    ensures RemoveCsv(s) == RemoveCsv(s[4..])
  {
  }

  /** One step of the scan over a character that does not start `.csv`. */
  lemma RemoveCsvSkip(s: string)
    requires s != [] && !(|s| >= 4 && s[..4] == ".csv")
    ensures RemoveCsv(s) == [s[0]] + RemoveCsv(s[1..])
  {
  }

  /** A match at the start of `a + rest`, with `rest` starting a new `.csv`, lies inside `a`. */
  lemma NoMatchAcrossJunction(a: string, rest: string)
    requires a != [] && !(|a| >= 4 && a[..4] == ".csv")
    requires |rest| >= 4 && rest[..4] == ".csv"
    ensures var s := a + rest; !(|s| >= 4 && s[..4] == ".csv")
  {
    var s := a + rest;
    if |a| >= 4 {
      assert s[..4] == a[..4];
    } else {
      assert s[|a|] == rest[0] == '.';
      assert ".csv"[|a|] != '.';
    }
  }

  /** The single pass can leave a `.csv` behind: deleting the inner one of
      `.c.csvsv` joins its neighbours into a new one. */
  lemma RemoveCsvLeavesCsv()
    ensures RemoveCsv(".c.csvsv") == ".csv"
    ensures HasInfix(RemoveCsv(".c.csvsv"), ".csv")
  {
    RemoveCsvAround(".c", "sv");
    assert ".c" + ".csv" + "sv" == ".c.csvsv";
    assert RemoveCsv("sv") == "sv" by { assert !HasInfix("sv", ".csv"); }
    assert RemoveCsv(".c") == ".c" by { assert !HasInfix(".c", ".csv"); }
    assert ".c" + "sv" == ".csv";
  }

  /** Exactly one trailing slash is removed: a directory with one and without one give
      the same target, and a second slash is kept in the path. */
  lemma OneSlashRemoved(zipName: string, dir: string, fileName: Option<string>)
    requires dir != [] && dir[|dir| - 1] != '/'
    ensures ToCsvTarget(zipName, dir + "/", fileName) == ToCsvTarget(zipName, dir, fileName)
    ensures ToCsvTarget(zipName, dir + "//", fileName).value.path
         == dir + "//" + RemoveCsv(zipName) + ".zip"
  {
    assert (dir + "/")[..|dir|] == dir;
    assert (dir + "//")[..|dir| + 1] == dir + "/";
  }
}
