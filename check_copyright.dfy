/**
 The pre-commit hook that puts a copyright block at the top of a newly added
 C, C++ or Arduino source file.

 The hook, per file: skip unsupported extensions; skip files the index does
 not list as added; read the raw bytes and pick the newline from them; skip
 files that already carry the block; build the block from a template; set a
 leading byte-order mark aside; insert the block (after a `#!` line if there
 is one); put the mark back; write and re-stage.

 Calls to git, the file system, the UTF-8 codec and the clock are not
 modelled: their results arrive as parameters.
 */
module CheckCopyright {
  import opened PyStr
  import opened PyPath

  datatype Option<T> = None | Some(value: T)

  /** `SUPPORTED_EXTS` */
  const SupportedExts: set<string> := {".c", ".h", ".cpp", ".hpp", ".ino"}

  /** U+FEFF, the byte-order mark as it appears in decoded text. */
  const Bom: char := '\U{FEFF}'

  // ---------------------------------------------------------------------
  // Staged-status probe (`is_added_in_index`)
  // ---------------------------------------------------------------------

  /** What the two git queries gave back: either one of them failed (not a
      repository, git missing, ...), or the path relative to the repository
      root together with the lines of `git diff --cached --name-status`. */
  datatype IndexQuery =
    | QueryFailed
    | NameStatus(rel: string, lines: seq<string>)

  /** The record on `line` is about `rel`: it splits at its first tab into a
      status and a path, and the two paths normalise to the same string. */
  predicate NamesPath(line: string, rel: string, norm: string -> string) {
    var parts := SplitOnce(line, '\t');
    |parts| == 2 && norm(parts[1]) == norm(rel)
  }

  /** The status field of a record: the text before its first tab. */
  function StatusField(line: string): string {
    SplitOnce(line, '\t')[0]
  }

  /** `c.upper()` begins with `A`. Apart from `a` and `A` this holds of
      U+1E9A alone, whose full upper-case form is `A` followed by U+02BE. */
  predicate UpperStartsWithA(c: char) {
    c == 'A' || c == 'a' || c == '\U{1E9A}'
  }

  /** `status.strip().upper().startswith("A")` */
  predicate IsAddedStatus(status: string) {
    var s := Strip(status);
    |s| > 0 && UpperStartsWithA(s[0])
  }

  /** Line `i` is the first record about `rel`. */
  predicate IsFirstRecordFor(lines: seq<string>, i: int, rel: string, norm: string -> string) {
    && 0 <= i < |lines|
    && NamesPath(lines[i], rel, norm)
    && forall j :: 0 <= j < i ==> !NamesPath(lines[j], rel, norm)
  }

  /** The file counts as added when the queries succeeded and the first
      record about it carries an "added" status. */
  ghost predicate IsAdded(q: IndexQuery, norm: string -> string) {
    && q.NameStatus?
    && exists i :: IsFirstRecordFor(q.lines, i, q.rel, norm) && IsAddedStatus(StatusField(q.lines[i]))
  }

  /** The record scan of `is_added_in_index`; `norm` stands for
      `os.path.normpath`. */
  method IsAddedInIndex(q: IndexQuery, norm: string -> string) returns (added: bool)
    ensures added <==> IsAdded(q, norm)
  {
    if q.QueryFailed? {
      return false;
    }
    var lines, rel := q.lines, q.rel;
    var k := 0;
    while k < |lines|
      invariant 0 <= k <= |lines|
      invariant forall j :: 0 <= j < k ==> !NamesPath(lines[j], rel, norm)
    {
      if NamesPath(lines[k], rel, norm) {
        assert IsFirstRecordFor(lines, k, rel, norm);
        return IsAddedStatus(StatusField(lines[k]));
      }
      k := k + 1;
    }
    return false;
  }

  // ---------------------------------------------------------------------
  // Header synthesis (`format_date_human`, `HEADER_TEMPLATE`)
  // ---------------------------------------------------------------------

  /** A calendar date as `datetime` holds it. */
  datatype Date = Date(year: nat, month: nat, day: nat)

  predicate ValidMonth(d: Date) {
    1 <= d.month <= 12
  }

  /** `strftime('%B')` in the C locale. */
  function MonthName(m: nat): string
    requires 1 <= m <= 12
  {
    match m
    case 1 => "January"
    case 2 => "February"
    case 3 => "March"
    case 4 => "April"
    case 5 => "May"
    case 6 => "June"
    case 7 => "July"
    case 8 => "August"
    case 9 => "September"
    case 10 => "October"
    case 11 => "November"
    case 12 => "December"
  }

  /** `format_date_human`: month name, unpadded day, comma, year. */
  function FormatDateHuman(d: Date): string
    requires ValidMonth(d)
  {
    MonthName(d.month) + " " + DecimalString(d.day) + ", " + DecimalString(d.year)
  }

  /** The formatted template without its final newline: a block comment
      around the three filled-in lines. The key lines the detector looks
      for are written as separate pieces. */
  function HeaderBlock(filename: string, createdOn: string, author: string): string {
    "/*" + HeaderBody(filename, createdOn, author) + "*/"
  }

  /** What lies between the comment delimiters of the header. */
  function HeaderBody(filename: string, createdOn: string, author: string): string {
    "\n * " + filename + "\n *\n *  " + "Created on:" + " " + createdOn + "\n *      "
      + ("Author: " + author) + "\n "
  }

  /** `HEADER_TEMPLATE.format(filename=..., created_on=..., author=...)` */
  function Template(filename: string, createdOn: string, author: string): string {
    HeaderBlock(filename, createdOn, author) + "\n"
  }

  /** The header: the formatted template, stripped. The template begins with
      a slash and ends in a slash and a newline, so stripping drops exactly
      the final newline, whatever the three fields hold. */
  function BuildHeader(filename: string, createdOn: string, author: string): (h: string)
    ensures h == HeaderBlock(filename, createdOn, author)
  {
    var t := Template(filename, createdOn, author);
    var body := HeaderBlock(filename, createdOn, author);
    assert t[..|t| - 1] == body;
    assert LStrip(t) == t;
    assert RStrip(body) == body;
    Strip(t)
  }

  // ---------------------------------------------------------------------
  // Header detection, newline detection, insertion
  // ---------------------------------------------------------------------

  /** `has_our_header`: both key lines occur somewhere, and the text, after
      its leading whitespace, opens a block comment. */
  predicate HasOurHeader(text: string, author: string) {
    && Contains(text, "Created on:")
    && Contains(text, "Author: " + author)
    && StartsWith(LStrip(text), "/*")
  }

  /** `detect_line_ending` */
  function DetectLineEnding(raw: seq<byte>): (nl: string)
    ensures nl == "\r\n" || nl == "\n"
    ensures nl == "\r\n" <==> exists i :: 0 <= i < |raw| - 1 && raw[i] == CR && raw[i + 1] == LF
  {
    if HasCrLf(raw) then "\r\n" else "\n"
  }

  /** `insert_after_shebang`. Note that the first line ends at the first
      `\n`, whichever newline the file uses. */
  function InsertAfterShebang(text: string, header: string, newline: string): string {
    if StartsWith(text, "#!") then
      var firstNewline := Find(text, '\n');
      if firstNewline == -1 then
        text + newline + header + newline
      else
        text[..firstNewline + 1] + header + newline + text[firstNewline + 1..]
    else
      header + newline + text
  }

  /** The byte-order-mark step of `process_file`: every leading mark is set
      aside, the header is inserted, and one mark is put back. */
  function InsertKeepingBom(text: string, header: string, newline: string): string {
    if StartsWith(text, [Bom]) then
      [Bom] + InsertAfterShebang(LStripChar(text, Bom), header, newline)
    else
      InsertAfterShebang(text, header, newline)
  }

  /** What `process_file` writes for a supported, added, readable file, or
      `None` when the header is already there. */
  function Rewrite(raw: seq<byte>, text: string, filename: string, author: string, today: Date): (r: Option<string>)
    requires ValidMonth(today)
    ensures r.None? <==> HasOurHeader(text, author)
  {
    if HasOurHeader(text, author) then None
    else
      var header := BuildHeader(filename, FormatDateHuman(today), author);
      Some(InsertKeepingBom(text, header, DetectLineEnding(raw)))
  }

  /** `os.path.splitext(path)[1].lower() in SUPPORTED_EXTS` */
  predicate IsSupported(path: string) {
    AsciiLower(Extension(path)) in SupportedExts
  }

  // ---------------------------------------------------------------------
  // `process_file`
  // ---------------------------------------------------------------------

  /** The outcome of `open(path, "rb").read()` followed by the decode: the raw
      bytes and the text decoded from them, or a read error. */
  datatype FileRead = ReadFailed | Read(raw: seq<byte>, text: string)

  /** `process_file`: returns the count it adds to `changed` and the text it
      writes back (`None` when nothing is written). */
  method ProcessFile(path: string, author: string, index: IndexQuery, norm: string -> string,
                     file: FileRead, today: Date)
    returns (changed: nat, written: Option<string>)
    requires ValidMonth(today)
    ensures changed == (if written.Some? then 1 else 0)
    ensures !IsSupported(path) ==> written.None?
    ensures !IsAdded(index, norm) ==> written.None?
    ensures written ==
      if IsSupported(path) && IsAdded(index, norm) && file.Read?
      then Rewrite(file.raw, file.text, Basename(path), author, today)
      else None
  {
    changed, written := 0, None;
    var ext := AsciiLower(Extension(path));
    if ext in SupportedExts {
      var added := IsAddedInIndex(index, norm);
      if added && file.Read? {
        var raw := file.raw;
        var newline := DetectLineEnding(raw);
        var text := file.text;
        if !HasOurHeader(text, author) {
          var createdOn := FormatDateHuman(today);
          var filename := Basename(path);
          var header := BuildHeader(filename, createdOn, author);
          var bom := "";
          if StartsWith(text, [Bom]) {
            bom := [Bom];
            text := LStripChar(text, Bom);
          }
          var newText := InsertAfterShebang(text, header, newline);
          newText := bom + newText;
          assert newText == InsertKeepingBom(file.text, header, newline);
          changed, written := 1, Some(newText);
        }
      }
    }
  }
}
