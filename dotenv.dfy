/** The fallback `.env` reader of script.py: `KEY=VALUE` lines become the
    entries of a dict, which `main` prints in sorted key order. */
module DotEnv {
  import opened Text
  import opened Collections
  import opened Ordering

  /** The clean-up applied to a value: surrounding whitespace first, then
      every leading and trailing `"`, then every leading and trailing `'`,
      and nothing after that. */
  function CleanValue(v: string): (r: string)
    ensures |r| <= |v|
    ensures r != [] ==> r[0] != '\'' && r[|r| - 1] != '\''
  {
    Strip(Strip(Trim(v), Just('"')), Just('\''))
  }

  /** The body of the line loop of load_dotenv_simple for one line: the
      entry it assigns, if any. */
  function ParseEnvLine(raw: string): (e: Option<(string, string)>)
    ensures e.Some? ==> '=' !in e.value.0 && IsTrimmed(e.value.0)
  {
    var line := Trim(raw);
    if line == [] || line[0] == '#' then None
    else if '=' !in line then None
    else
      var parts := SplitFirst(line, '=');
      TrimKeeps(parts.0, '=');
      Some((Trim(parts.0), CleanValue(parts.1)))
  }

  /** The dict a whole file yields. */
  function ParseEnv(lines: seq<string>): map<string, string>
  {
    Assigned(lines, ParseEnvLine)
  }

  /** load_dotenv_simple: read the lines in order and assign each entry into
      the dict. */
  method LoadDotenvSimple(lines: seq<string>) returns (env: map<string, string>)
    ensures env == ParseEnv(lines)
    ensures forall k :: k in env ==> '=' !in k && IsTrimmed(k)
  {
    env := map[];
    for i := 0 to |lines|
      invariant env == ParseEnv(lines[..i])
    {
      assert lines[..i + 1][..i] == lines[..i];
      var line := Trim(lines[i]);
      if line == [] || line[0] == '#' {
        continue;
      }
      if '=' !in line {
        continue;
      }
      var parts := SplitFirst(line, '=');
      var key := Trim(parts.0);
      var val := CleanValue(parts.1);
      env := env[key := val];
    }
    assert lines[..|lines|] == lines;
    forall k | k in env
      ensures '=' !in k && IsTrimmed(k)
    {
      AssignedKeys(lines, ParseEnvLine, k);
    }
  }

  /** Blank lines (after trimming) and comment lines are skipped. */
  lemma BlankOrCommentSkipped(raw: string)
    requires Trim(raw) == [] || Trim(raw)[0] == '#'
    ensures ParseEnvLine(raw) == None
  {
  }

  /** A line without '=' is skipped silently. */
  lemma NoEqualsSkipped(raw: string)
    requires '=' !in raw
    ensures ParseEnvLine(raw) == None
  {
    TrimKeeps(raw, '=');
  }

  /** A line is split at its first '=': the key is the trimmed text before
      it, which may be empty, and the value is the cleaned text after it,
      which may hold further '=' characters. */
  lemma {:induction false} SplitsAtFirstEquals(raw: string, a: string, b: string)
    requires Trim(raw) == a + ['='] + b && '=' !in a
    requires a == [] || a[0] != '#'
    ensures ParseEnvLine(raw) == Some((Trim(a), CleanValue(b)))
  {
    var line := Trim(raw);
    assert line[0] == (if a == [] then '=' else a[0]);
    SplitFirstUnique(line, '=', a, b);
  }

  /** A line whose text before the first '=' is blank yields the empty key;
      this parser does not filter it out. */
  lemma EmptyKeyKept(raw: string, b: string)
    requires Trim(raw) == ['='] + b
    ensures ParseEnvLine(raw) == Some(([], CleanValue(b)))
  {
  }

  /** A value in single quotes loses exactly those quotes and is not trimmed
      again: `' a '` yields ` a `, spaces kept. */
  lemma {:induction false} SingleQuotesNotRetrimmed(x: string)
    requires x == [] || (x[0] != '\'' && x[|x| - 1] != '\'')
    ensures CleanValue(['\''] + x + ['\'']) == x
  {
    var q := ['\''] + x + ['\''];
    assert Trim(q) == q by {
      TrimmedIsFixed(q);
    }
    assert Strip(q, Just('"')) == q by {
      assert StripLeft(q, Just('"')) == q;
      assert StripRight(q, Just('"')) == q;
    }
    QuotesStripped(x, '\'');
  }

  /** Stripping `c` from `c` + x + `c`, where x neither starts nor ends
      with `c`, gives x. */
  lemma {:induction false} QuotesStripped(x: string, c: char)
    requires x == [] || (x[0] != c && x[|x| - 1] != c)
    ensures Strip([c] + x + [c], Just(c)) == x
  {
    var q := [c] + x + [c];
    assert q[1..] == x + [c];
    if x == [] {
      assert StripLeft(q, Just(c)) == StripLeft([c], Just(c));
      assert [c][1..] == [];
      assert StripLeft([c], Just(c)) == [];
    } else {
      assert StripLeft(q, Just(c)) == StripLeft(x + [c], Just(c));
      assert StripLeft(x + [c], Just(c)) == x + [c];
      assert (x + [c])[..|x|] == x;
      assert StripRight(x + [c], Just(c)) == StripRight(x, Just(c));
    }
  }

  /** A value in double quotes loses those quotes, and the text inside is
      kept as it is when it neither begins nor ends with a quote: `" a "`
      yields ` a `. */
  lemma {:induction false} DoubleQuotesRemoved(x: string)
    requires x == [] || (x[0] != '"' && x[|x| - 1] != '"' && x[0] != '\'' && x[|x| - 1] != '\'')
    ensures CleanValue(['"'] + x + ['"']) == x
  {
    var q := ['"'] + x + ['"'];
    assert Trim(q) == q by {
      TrimmedIsFixed(q);
    }
    QuotesStripped(x, '"');
    assert StripLeft(x, Just('\'')) == x;
    assert StripRight(x, Just('\'')) == x;
  }

  /** The keys of the dict are exactly the keys some line assigns. */
  lemma EnvKeys(lines: seq<string>, k: string)
    ensures k in ParseEnv(lines) <==>
      exists i :: 0 <= i < |lines| && ParseEnvLine(lines[i]).Some? && ParseEnvLine(lines[i]).value.0 == k
  {
    AssignedKeys(lines, ParseEnvLine, k);
  }

  /** A later line with the same key overwrites an earlier one: the value kept
      is the one from the last line assigning the key. */
  lemma LastAssignmentWins(lines: seq<string>, i: nat)
    requires i < |lines| && ParseEnvLine(lines[i]).Some?
    requires forall j :: i < j < |lines| ==>
      ParseEnvLine(lines[j]).None? || ParseEnvLine(lines[j]).value.0 != ParseEnvLine(lines[i]).value.0
    ensures var e := ParseEnvLine(lines[i]).value;
      e.0 in ParseEnv(lines) && ParseEnv(lines)[e.0] == e.1
  {
    AssignedLastWins(lines, ParseEnvLine, i);
  }

  /** The exit of `main` when the file does not exist. */
  datatype EnvError = EnvFileMissing
  {
    function ExitCode(): int { 2 }
  }

  /** What `main` prints: the number of keys, then every entry. */
  datatype Listing = Listing(count: nat, entries: seq<(string, string)>)

  /** `main` of script.py with the fallback parser: a missing file is an
      error with exit status 2, raised before any parsing; otherwise every
      entry is listed once, in ascending key order. */
  method PrintEnv(file: TextFile) returns (r: Result<Listing, EnvError>)
    ensures file.Missing? <==> r == Failure(EnvFileMissing)
    ensures r.Success? ==> SortedByName(r.value.entries)
    ensures r.Success? ==> r.value.count == |r.value.entries| == |ParseEnv(file.lines)|
    ensures r.Success? ==> forall p :: p in r.value.entries <==>
      p.0 in ParseEnv(file.lines) && ParseEnv(file.lines)[p.0] == p.1
  {
    if file.Missing? {
      return Failure(EnvFileMissing);
    }
    var env := LoadDotenvSimple(file.lines);
    var entries := SortedItems(env);
    r := Success(Listing(|env|, entries));
  }
}
