/** The mapping-file loader of scripts/create-ecr-repositories.py: each
    useful line `folder:repository-name` of the file becomes one entry. */
module EcrMapping {
  import opened Text
  import opened Collections

  /** One mapping entry: the Lambda folder and the ECR repository name. */
  datatype Mapping = Mapping(folder: string, repoName: string)

  /** The pre-flight failures that make the script exit (all with status 1). */
  datatype Fatal = CredentialsMissing | MappingFileMissing | NoMappings
  {
    function ExitCode(): int { 1 }
  }

  /** What every emitted entry satisfies. */
  predicate WellFormed(m: Mapping)
  {
    && m.folder != [] && m.repoName != []
    && ':' !in m.folder && m.folder[0] != '#'
    && IsTrimmed(m.folder) && IsTrimmed(m.repoName)
  }

  /** The body of the line loop for one line of the file. */
  function ParseMappingLine(raw: string): (m: Option<Mapping>)
    ensures m.Some? ==> WellFormed(m.value)
  {
    var line := Trim(raw);
    if line == [] || line[0] == '#' then None
    else if ':' !in line then None
    else
      var parts := SplitFirst(line, ':');
      var folder := Trim(parts.0);
      var repoName := Trim(parts.1);
      TrimKeeps(parts.0, ':');
      if folder != [] && repoName != [] then
        // the folder starts where the line does, so not with '#'
        assert parts.0[0] == line[0];
        TrimKeepsFirst(parts.0);
        Some(Mapping(folder, repoName))
      else None
  }

  /** The entries of a whole file, in file order. */
  function ParseMappings(lines: seq<string>): seq<Mapping>
  {
    Collect(lines, ParseMappingLine)
  }

  /** parse_mapping_file: a missing file is fatal; otherwise every line is
      parsed in turn and the entries it yields are appended. */
  method ParseMappingFile(file: TextFile) returns (r: Result<seq<Mapping>, Fatal>)
    ensures file.Missing? ==> r == Failure(MappingFileMissing)
    ensures file.File? ==> r == Success(ParseMappings(file.lines))
  {
    if file.Missing? {
      return Failure(MappingFileMissing);
    }
    var lines := file.lines;
    var mappings: seq<Mapping> := [];
    for i := 0 to |lines|
      invariant mappings == ParseMappings(lines[..i])
    {
      var line := Trim(lines[i]);
      if line == [] || line[0] == '#' {
        assert lines[..i + 1][..i] == lines[..i];
        continue;
      }
      if ':' in line {
        var parts := SplitFirst(line, ':');
        var folder := Trim(parts.0);
        var repoName := Trim(parts.1);
        if folder != [] && repoName != [] {
          mappings := mappings + [Mapping(folder, repoName)];
        }
      }
      assert lines[..i + 1][..i] == lines[..i];
    }
    assert lines[..|lines|] == lines;
    return Success(mappings);
  }

  /** Blank lines (after trimming) and comment lines never yield an entry. */
  lemma BlankOrCommentSkipped(raw: string)
    requires Trim(raw) == [] || Trim(raw)[0] == '#'
    ensures ParseMappingLine(raw) == None
  {
  }

  /** A line without a colon is skipped silently. */
  lemma NoColonSkipped(raw: string)
    requires ':' !in raw
    ensures ParseMappingLine(raw) == None
  {
    TrimKeeps(raw, ':');
  }

  /** A line is split at its first colon, and each half is trimmed; the
      repository name keeps any later colons. The entry is emitted exactly
      when both trimmed halves are non-empty. */
  lemma {:induction false} SplitsAtFirstColon(raw: string, a: string, b: string)
    requires Trim(raw) == a + [':'] + b && ':' !in a
    requires a == [] || a[0] != '#'
    ensures ParseMappingLine(raw) ==
      if Trim(a) != [] && Trim(b) != [] then Some(Mapping(Trim(a), Trim(b))) else None
  {
    var line := Trim(raw);
    assert line[0] == (if a == [] then ':' else a[0]);
    SplitFirstUnique(line, ':', a, b);
  }

  /** Every emitted entry comes from one line, split at that line's first
      colon: the converse of SplitsAtFirstColon. */
  lemma EntryShape(raw: string, m: Mapping)
    requires ParseMappingLine(raw) == Some(m)
    ensures ':' in Trim(raw)
    ensures var parts := SplitFirst(Trim(raw), ':');
      m.folder == Trim(parts.0) && m.repoName == Trim(parts.1)
  {
  }

  /** Every entry of a file is well formed, and there are at most as many
      entries as lines. */
  lemma {:induction false} EntriesWellFormed(lines: seq<string>)
    ensures |ParseMappings(lines)| <= |lines|
    ensures forall m :: m in ParseMappings(lines) ==> WellFormed(m)
  {
    forall m | m in ParseMappings(lines)
      ensures WellFormed(m)
    {
      CollectMembers(lines, ParseMappingLine, m);
    }
  }

  /** File order is kept and nothing is deduplicated: the entries of two
      pieces of a file are the entries of the first piece followed by those
      of the second, so a file listing the same line twice yields it twice. */
  lemma OrderAndDuplicatesKept(a: seq<string>, b: seq<string>)
    ensures ParseMappings(a + b) == ParseMappings(a) + ParseMappings(b)
  {
    CollectAppend(a, b, ParseMappingLine);
  }

  /** Writing an entry as `folder:repo-name` and parsing the line gives the
      entry back, for every entry the parser can produce whose folder does
      not start with '#'. */
  lemma FormatThenParse(m: Mapping)
    requires WellFormed(m)
    ensures ParseMappingLine(m.folder + ":" + m.repoName) == Some(m)
  {
    var line := m.folder + ":" + m.repoName;
    assert line == m.folder + [':'] + m.repoName;
    TrimmedIsFixed(line);
    TrimmedIsFixed(m.folder);
    TrimmedIsFixed(m.repoName);
    SplitsAtFirstColon(line, m.folder, m.repoName);
  }
}
