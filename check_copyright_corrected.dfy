/**
 A corrected header detector for the copyright hook. As written, the
 detector only looks at the very start of the text, so a file that begins
 with a byte-order mark or a `#!` line, where the hook puts the header
 further in, is given another header by every later run. The corrected
 detector looks where the hook writes: past the leading marks and past a
 `#!` line. With it, a second run leaves every rewritten file alone.
 */
module CheckCopyrightCorrected {
  import opened PyStr
  import opened CheckCopyright
  import opened CheckCopyrightProps

  /** The part of the text where the hook puts the header: leading
      byte-order marks dropped, and then a `#!` line. */
  function AfterPreamble(text: string): (r: string)
    ensures |r| <= |text| && r == text[|text| - |r|..]
  {
    var t := LStripChar(text, Bom);
    if StartsWith(t, "#!") then t[|FirstLine(t)|..] else t
  }

  /** The header detector, applied where the header goes. */
  predicate HasOurHeaderCorrected(text: string, author: string) {
    HasOurHeader(AfterPreamble(text), author)
  }

  /** The rewrite of one file with the corrected detector. */
  function RewriteCorrected(raw: seq<byte>, text: string, filename: string, author: string, today: Date)
    : (r: Option<string>)
    requires ValidMonth(today)
    ensures r.None? <==> HasOurHeaderCorrected(text, author)
    ensures r.Some? ==>
      r.value == InsertKeepingBom(text, BuildHeader(filename, FormatDateHuman(today), author), DetectLineEnding(raw))
  {
    if HasOurHeaderCorrected(text, author) then None
    else
      var header := BuildHeader(filename, FormatDateHuman(today), author);
      Some(InsertKeepingBom(text, header, DetectLineEnding(raw)))
  }

  /** On a text with neither a byte-order mark nor a `#!` line, the two
      detectors agree. */
  lemma CorrectedAgreesOnPlainText(text: string, author: string)
    requires !StartsWith(text, [Bom]) && !StartsWith(text, "#!")
    ensures HasOurHeaderCorrected(text, author) <==> HasOurHeader(text, author)
  {
    if |text| > 0 {
      assert text[..1] == [text[0]];
      NoMarkToStrip(text);
    }
    assert AfterPreamble(text) == text;
  }

  /** On a text with neither a byte-order mark nor a `#!` line, the
      corrected rewrite writes what the original one writes. */
  lemma RewriteCorrectedAgrees(raw: seq<byte>, text: string, filename: string, author: string, today: Date)
    requires ValidMonth(today)
    requires !StartsWith(text, [Bom]) && !StartsWith(text, "#!")
    ensures RewriteCorrected(raw, text, filename, author, today) == Rewrite(raw, text, filename, author, today)
  {
    CorrectedAgreesOnPlainText(text, author);
  }

  /** A text that does not begin with a mark keeps its first character. */
  lemma NoMarkToStrip(s: string)
    requires |s| > 0 && s[0] != Bom
    ensures LStripChar(s, Bom) == s
  {
  }

  /** Behind a `#!` line that ends at its only `\n`, the part past the
      first line is whatever follows. */
  lemma PastShebangLine(line: string, u: string)
    requires |line| > 0 && Find(line, '\n') == |line| - 1 && StartsWith(line, "#!")
    ensures StartsWith(line + u, "#!") && (line + u)[|FirstLine(line + u)|..] == u
  {
    FirstLineOfJoin(line, u);
    assert (line + u)[..2] == line[..2];
  }

  /** The first line of a `#!` text that holds a `\n` starts with `#!` too. */
  lemma ShebangLineStart(t: string)
    requires StartsWith(t, "#!") && '\n' in t
    ensures StartsWith(FirstLine(t), "#!")
  {
    var line := FirstLine(t);
    FirstLineEndsAtNewline(t);
    assert line[..2] == t[..2];
  }

  /** After a `#!` line ended by `\n`, the inserted text begins with the header. */
  lemma TerminatedShebangDropped(t: string, header: string, newline: string)
    requires StartsWith(t, "#!") && '\n' in t
    ensures var s := InsertAfterShebang(t, header, newline);
      StartsWith(s, "#!") && StartsWith(s[|FirstLine(s)|..], header)
  {
    var line := FirstLine(t);
    var rest := header + newline + t[|line|..];
    FirstLineEndsAtNewline(t);
    ShebangLineStart(t);
    ShebangInsertShape(t, header, newline);
    PastShebangLine(line, rest);
    assert rest[..|header|] == header;
  }

  /** After a `#!` line with no `\n`, the inserted text begins with the header. */
  lemma UnterminatedShebangDropped(t: string, header: string, newline: string)
    requires StartsWith(t, "#!") && '\n' !in t
    requires newline == "\n" || newline == "\r\n"
    ensures var s := InsertAfterShebang(t, header, newline);
      StartsWith(s, "#!") && StartsWith(s[|FirstLine(s)|..], header)
  {
    var s := InsertAfterShebang(t, header, newline);
    ShebangOnlyLineTerminated(t, header, newline);
    var line := t + newline;
    assert s == line + (header + newline);
    assert s[..2] == t[..2];
    assert s[|line|..] == header + newline;
  }

  /** Behind a `#!` line, the part the corrected detector looks at in the
      result of the insertion begins with the header. */
  lemma PreambleOfShebangInsert(t: string, header: string, newline: string)
    requires StartsWith(t, "#!")
    requires newline == "\n" || newline == "\r\n"
    ensures var s := InsertAfterShebang(t, header, newline);
      |s| > 0 && s[0] != Bom && StartsWith(AfterPreamble(s), header)
  {
    var s := InsertAfterShebang(t, header, newline);
    ShebangStaysInFront(t, header, newline);
    NoMarkToStrip(s);
    if '\n' in t {
      TerminatedShebangDropped(t, header, newline);
    } else {
      UnterminatedShebangDropped(t, header, newline);
    }
  }

  /** Without a `#!` line, the insertion begins with the header, which is
      where the corrected detector looks. */
  lemma PreambleOfPlainInsert(t: string, header: string, newline: string)
    requires !StartsWith(t, "#!")
    requires StartsWith(header, "/*")
    ensures var s := InsertAfterShebang(t, header, newline);
      |s| > 0 && s[0] != Bom && StartsWith(AfterPreamble(s), header)
  {
    var s := InsertAfterShebang(t, header, newline);
    assert s == header + (newline + t);
    assert s[0] == header[0] == '/';
    NoMarkToStrip(s);
    assert s[..2] == header[..2];
    assert s[..|header|] == header;
  }

  /** Whatever the text, the part the corrected detector looks at in the
      result of the insertion begins with the header. */
  lemma PreambleOfInserted(t: string, header: string, newline: string)
    requires StartsWith(header, "/*")
    requires newline == "\n" || newline == "\r\n"
    ensures var s := InsertAfterShebang(t, header, newline);
      |s| > 0 && s[0] != Bom && StartsWith(AfterPreamble(s), header)
  {
    if StartsWith(t, "#!") {
      PreambleOfShebangInsert(t, header, newline);
    } else {
      PreambleOfPlainInsert(t, header, newline);
    }
  }

  /** Inserting the header keeping the byte-order mark puts the header at
      the start of the part the corrected detector looks at. */
  lemma PreambleOfRewritten(text: string, header: string, newline: string)
    requires StartsWith(header, "/*")
    requires newline == "\n" || newline == "\r\n"
    ensures StartsWith(AfterPreamble(InsertKeepingBom(text, header, newline)), header)
  {
    if StartsWith(text, [Bom]) {
      var t := LStripChar(text, Bom);
      var s := InsertAfterShebang(t, header, newline);
      PreambleOfInserted(t, header, newline);
      var o := [Bom] + s;
      assert o[1..] == s;
      assert LStripChar(o, Bom) == LStripChar(s, Bom);
    } else {
      PreambleOfInserted(text, header, newline);
    }
  }

  /** A text that begins with the header is taken to carry it. */
  lemma DetectedWhenHeaderFirst(x: string, filename: string, createdOn: string, author: string)
    requires StartsWith(x, BuildHeader(filename, createdOn, author))
    ensures HasOurHeader(x, author)
  {
    var h := BuildHeader(filename, createdOn, author);
    assert x == h + x[|h|..];
    HeaderDetectedAtStart(filename, createdOn, author, x[|h|..]);
  }

  /** With the corrected detector a second run leaves every rewritten file
      alone, with or without a byte-order mark or a `#!` line. */
  lemma CorrectedSecondPassLeavesFileAlone(raw: seq<byte>, text: string, filename: string, author: string,
                                           today: Date, raw2: seq<byte>, filename2: string, today2: Date)
    requires ValidMonth(today) && ValidMonth(today2)
    requires RewriteCorrected(raw, text, filename, author, today).Some?
    ensures RewriteCorrected(raw2, RewriteCorrected(raw, text, filename, author, today).value,
                             filename2, author, today2).None?
  {
    var h := BuildHeader(filename, FormatDateHuman(today), author);
    var nl := DetectLineEnding(raw);
    var o := RewriteCorrected(raw, text, filename, author, today).value;
    HeaderIsBlockComment(filename, FormatDateHuman(today), author);
    PreambleOfRewritten(text, h, nl);
    DetectedWhenHeaderFirst(AfterPreamble(o), filename, FormatDateHuman(today), author);
  }
}
