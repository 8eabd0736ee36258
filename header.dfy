/** Header discovery: the worker turns the first probed chunk of the CSV file
    into the list of column names (`getFields` in the downloader). */
module Header {
  import opened JsStrings

  /** `chunk.split("\n")[0]`: the text before the first newline, or the whole
      chunk when it holds none. */
  function FirstLine(chunk: string): (line: string)
    ensures line <= chunk
    ensures '\n' !in line
    ensures |line| < |chunk| ==> chunk[|line|] == '\n'
    ensures '\n' !in chunk ==> line == chunk
  {
    Split(chunk, '\n')[0]
  }

  /** The three facts FirstLine promises determine it. */
  lemma FirstLineUnique(chunk: string, line: string)
    requires line <= chunk
    requires '\n' !in line
    requires |line| < |chunk| ==> chunk[|line|] == '\n'
    ensures FirstLine(chunk) == line
  {
    FirstIndexUnique(chunk, '\n', |line|);
  }

  /** The default separator of `getFields`. */
  const DefaultSeparator := ','

  /** `getFields(chunk, separator = ",")`: trim the first line, split it on
      the separator. Joining the fields with the separator gives back the
      trimmed first line, and no field contains the separator. */
  function GetFields(chunk: string, separator: char := DefaultSeparator): (fields: seq<string>)
    ensures |fields| >= 1
    ensures Join(fields, [separator]) == Trim(FirstLine(chunk))
    ensures forall k :: 0 <= k < |fields| ==> separator !in fields[k]
  {
    JoinSplit(Trim(FirstLine(chunk)), separator);
    Split(Trim(FirstLine(chunk)), separator)
  }

  /** An empty or blank first line, and only such a line, gives the single
      empty field `[""]`. */
  lemma BlankHeaderLine(chunk: string, separator: char)
    ensures GetFields(chunk, separator) == [""] <==> AllTrimmable(FirstLine(chunk))
  {
    var line := FirstLine(chunk);
    var lead, trail := TrimDecompose(line);
    if AllTrimmable(line) {
      assert line == line + [] + [];
      TrimExact(line, [], []);
    }
    if GetFields(chunk, separator) == [""] {
      assert Trim(line) == [];
      assert line == lead + trail;
    }
  }

  /** Only the text before the first newline matters: once the chunk holds a
      newline, anything appended to it leaves the fields unchanged. */
  lemma OnlyFirstLineMatters(chunk: string, more: string, separator: char)
    requires '\n' in chunk
    ensures GetFields(chunk + more, separator) == GetFields(chunk, separator)
  {
    var line := FirstLine(chunk);
    assert |line| < |chunk|;
    FirstLineUnique(chunk + more, line);
  }

  /** The whole line is trimmed, not each field: the first field starts and
      the last field ends with a character `trim` keeps (or is empty). */
  lemma TrimmedAtTheEnds(chunk: string, separator: char)
    ensures StartsKept(GetFields(chunk, separator)[0])
    ensures EndsKept(Last(GetFields(chunk, separator)))
  {
    var fields := GetFields(chunk, separator);
    var line := Join(fields, [separator]);
    assert IsTrimmed(line);
    if fields[0] != [] {
      JoinFirst(fields, [separator]);
    }
    if Last(fields) != [] {
      JoinLast(fields, [separator]);
    }
  }

  predicate StartsKept(s: string) {
    s == [] || !IsTrimmable(s[0])
  }

  predicate EndsKept(s: string) {
    s == [] || !IsTrimmable(s[|s| - 1])
  }

  function Last<T>(s: seq<T>): T
    requires |s| >= 1
  {
    s[|s| - 1]
  }

  /** The join starts with the first character of the first part. */
  lemma JoinFirst(parts: seq<string>, sep: string)
    requires |parts| >= 1 && parts[0] != []
    ensures Join(parts, sep) != [] && Join(parts, sep)[0] == parts[0][0]
  {
  }

  /** The join ends with the last character of the last part. */
  lemma {:induction false} JoinLast(parts: seq<string>, sep: string)
    requires |parts| >= 1 && Last(parts) != []
    ensures var s := Join(parts, sep); s != [] && s[|s| - 1] == Last(Last(parts))
    decreases |parts|
  {
    if |parts| > 1 {
      JoinLast(parts[1..], sep);
      assert Last(parts[1..]) == Last(parts);
    }
  }

  /** A Windows line ending loses its carriage return to `trim`. */
  lemma CrLfDropped(line: string, more: string, separator: char)
    requires '\n' !in line
    ensures GetFields(line + "\r\n" + more, separator) == GetFields(line, separator)
  {
    FirstLineUnique(line + "\r\n" + more, line + "\r");
    var lead, trail := TrimDecompose(line);
    assert line + "\r" == lead + Trim(line) + (trail + "\r");
    TrimExact(lead, Trim(line), trail + "\r");
  }

  /** A header written from fields that hold neither the separator nor a
      newline, with nothing trimmable at its two ends, is read back as exactly
      those fields, in order: inner spaces, empty fields and repeated names are
      kept as they are. */
  lemma HeaderRoundTrip(fields: seq<string>, separator: char, more: string)
    requires |fields| >= 1
    requires forall k :: 0 <= k < |fields| ==> separator !in fields[k]
    requires '\n' !in Join(fields, [separator])
    requires IsTrimmed(Join(fields, [separator]))
    ensures GetFields(Join(fields, [separator]) + "\n" + more, separator) == fields
  {
    var line := Join(fields, [separator]);
    var chunk := line + "\n" + more;
    FirstLineUnique(chunk, line);
    TrimmedUnchanged(line);
    SplitJoin(fields, separator);
  }

  /** The worker always discovers the header with the default comma, so a
      header line holding no comma (one written with another separator, say)
      becomes one single column named after the whole trimmed line. */
  lemma CommaOnlyHeader(chunk: string)
    requires ',' !in Trim(FirstLine(chunk))
    ensures GetFields(chunk) == [Trim(FirstLine(chunk))]
  {
    var line := Trim(FirstLine(chunk));
    assert Join([line], [DefaultSeparator]) == line;
    SplitJoin([line], DefaultSeparator);
  }
}
