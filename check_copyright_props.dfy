/**
 Properties of the copyright hook, stated over the functions of module
 CheckCopyright: what the header detector accepts, where the header lands,
 what happens to a byte-order mark, when a second run leaves a file alone,
 how the staged status is decided, and that the date in the header can be
 read back.
 */
module CheckCopyrightProps {
  import opened PyStr
  import opened PyPath
  import opened CheckCopyright

  // ---------------------------------------------------------------------
  // Header detection
  // ---------------------------------------------------------------------

  /** `text` opens a block comment at `k`, after nothing but whitespace. */
  predicate CommentOpensAt(text: string, k: int) {
    && 0 <= k < |text| - 1
    && text[k] == '/' && text[k + 1] == '*'
    && forall i :: 0 <= i < k ==> IsSpace(text[i])
  }

  /** `has_our_header` in declarative form: the two key lines occur, and a
      block comment opens after a run of whitespace at the start of the text. */
  lemma HasOurHeaderIff(text: string, author: string)
    ensures HasOurHeader(text, author) <==>
      && Contains(text, "Created on:")
      && Contains(text, "Author: " + author)
      && exists k :: CommentOpensAt(text, k)
  {
    var r := LStrip(text);
    var m := |text| - |r|;
    if StartsWith(r, "/*") {
      assert text[m] == r[0] && text[m + 1] == r[1];
      assert CommentOpensAt(text, m);
    }
    if exists k :: CommentOpensAt(text, k) {
      var k :| CommentOpensAt(text, k);
      assert r == text[k..];
      assert StartsWith(r, "/*");
    }
  }

  /** A text whose first character is neither whitespace nor `/` is never
      taken to have the header. U+FEFF and `#` are two such characters. */
  lemma NotDetectedBehindOtherFirstChar(text: string, author: string)
    requires |text| > 0 && !IsSpace(text[0]) && text[0] != '/'
    ensures !HasOurHeader(text, author)
  {
    assert LStrip(text) == text;
  }

  /** The stripped header is one block comment: it opens with slash-star
      and closes with star-slash. */
  lemma HeaderIsBlockComment(filename: string, createdOn: string, author: string)
    ensures var h := BuildHeader(filename, createdOn, author);
      StartsWith(h, "/*") && |h| >= 4 && h[|h| - 2..] == "*/"
  {
    var b := HeaderBody(filename, createdOn, author);
    assert ("/*" + b + "*/")[..2] == "/*";
  }

  /** A key line in the body of the header is a key line of the header. */
  lemma BodyKeyInHeader(filename: string, createdOn: string, author: string, key: string)
    requires Contains(HeaderBody(filename, createdOn, author), key)
    ensures Contains(BuildHeader(filename, createdOn, author), key)
  {
    var b := HeaderBody(filename, createdOn, author);
    ContainsPrepended("/*", b, key);
    ContainsExtended("/*" + b, key, "*/");
  }

  /** The stripped header carries the `Created on:` key line. */
  lemma HeaderCarriesCreatedOn(filename: string, createdOn: string, author: string)
    ensures Contains(BuildHeader(filename, createdOn, author), "Created on:")
  {
    var s0 := "\n * " + filename + "\n *\n *  ";
    var s1 := s0 + "Created on:";
    ContainsAtEnd(s0, "Created on:");
    ContainsExtended(s1, "Created on:", " ");
    ContainsExtended(s1 + " ", "Created on:", createdOn);
    ContainsExtended(s1 + " " + createdOn, "Created on:", "\n *      ");
    var s2 := s1 + " " + createdOn + "\n *      ";
    ContainsExtended(s2, "Created on:", "Author: " + author);
    ContainsExtended(s2 + ("Author: " + author), "Created on:", "\n ");
    BodyKeyInHeader(filename, createdOn, author, "Created on:");
  }

  /** The stripped header carries the key line naming its author. */
  lemma HeaderCarriesAuthor(filename: string, createdOn: string, author: string)
    ensures Contains(BuildHeader(filename, createdOn, author), "Author: " + author)
  {
    var s2 := "\n * " + filename + "\n *\n *  " + "Created on:" + " " + createdOn + "\n *      ";
    ContainsAtEnd(s2, "Author: " + author);
    ContainsExtended(s2 + ("Author: " + author), "Author: " + author, "\n ");
    BodyKeyInHeader(filename, createdOn, author, "Author: " + author);
  }

  /** A text that opens with a block comment holding both key lines is
      taken to carry the header, whatever follows. */
  lemma DetectedWithKeysUpFront(h: string, u: string, author: string)
    requires StartsWith(h, "/*")
    requires Contains(h, "Created on:") && Contains(h, "Author: " + author)
    ensures HasOurHeader(h + u, author)
  {
    ContainsExtended(h, "Created on:", u);
    ContainsExtended(h, "Author: " + author, u);
    StartsWithExtended(h, "/*", u);
    assert (h + u)[0] == '/';
    assert LStrip(h + u) == h + u;
  }

  /** Whatever follows it, a text that starts with the header is taken to
      carry it. */
  lemma HeaderDetectedAtStart(filename: string, createdOn: string, author: string, u: string)
    ensures HasOurHeader(BuildHeader(filename, createdOn, author) + u, author)
  {
    HeaderIsBlockComment(filename, createdOn, author);
    HeaderCarriesCreatedOn(filename, createdOn, author);
    HeaderCarriesAuthor(filename, createdOn, author);
    DetectedWithKeysUpFront(BuildHeader(filename, createdOn, author), u, author);
  }

  // ---------------------------------------------------------------------
  // Header placement
  // ---------------------------------------------------------------------

  /** The first line of `s`, through its first `\n`; all of `s` when there is none. */
  function FirstLine(s: string): string {
    var k := Find(s, '\n');
    if k == -1 then s else s[..k + 1]
  }

  /** Where the header goes: after the first line of a `#!` file, else at 0. */
  function InsertionPoint(text: string): nat {
    if StartsWith(text, "#!") then |FirstLine(text)| else 0
  }

  /** Except for a `#!` file made of one unterminated line, the result is
      the text with `header + newline` inserted at the start of a line:
      the text before that point is kept, the insertion is exactly
      `header + newline`, and cutting it out gives back the original. */
  lemma InsertionIsReversible(text: string, header: string, newline: string)
    requires !StartsWith(text, "#!") || '\n' in text
    ensures var r := InsertAfterShebang(text, header, newline);
      var p := InsertionPoint(text);
      var n := |header| + |newline|;
      && p <= |text|
      && (p == 0 || text[p - 1] == '\n')
      && |r| == |text| + n
      && r[..p] == text[..p]
      && r[p..p + n] == header + newline
      && r[..p] + r[p + n..] == text
  {
    var r := InsertAfterShebang(text, header, newline);
    var p := InsertionPoint(text);
    var n := |header| + |newline|;
    if StartsWith(text, "#!") {
      var k := Find(text, '\n');
      assert p == k + 1;
      assert r == text[..p] + (header + newline) + text[p..];
    } else {
      assert r == (header + newline) + text;
    }
    assert text == text[..p] + text[p..];
  }

  /** A line ending in its only `\n` stays the first line, whatever follows. */
  lemma FirstLineOfJoin(line: string, u: string)
    requires |line| > 0 && Find(line, '\n') == |line| - 1
    ensures StartsWith(line + u, line) && FirstLine(line + u) == line
  {
    FindExtended(line, u, '\n');
    assert (line + u)[..|line|] == line;
  }

  /** A first line that has a `\n` ends at it, and holds no other. */
  lemma FirstLineEndsAtNewline(text: string)
    requires '\n' in text
    ensures var line := FirstLine(text);
      |line| > 0 && Find(line, '\n') == |line| - 1 && line == text[..|line|]
  {
    var k := Find(text, '\n');
    var line := text[..k + 1];
    assert forall j :: 0 <= j < k ==> line[j] == text[j];
    FindIs(line, '\n', k);
  }

  /** Inserting into a `#!` file that has a `\n` puts the header right after
      its first line. */
  lemma ShebangInsertShape(text: string, header: string, newline: string)
    requires StartsWith(text, "#!") && '\n' in text
    ensures var line := FirstLine(text);
      InsertAfterShebang(text, header, newline) == line + (header + newline + text[|line|..])
  {
  }

  /** The `#!` line of a file stays its first line, verbatim. */
  lemma ShebangLineKept(text: string, header: string, newline: string)
    requires StartsWith(text, "#!") && '\n' in text
    ensures var r := InsertAfterShebang(text, header, newline);
      StartsWith(r, FirstLine(text)) && FirstLine(r) == FirstLine(text)
  {
    var line := FirstLine(text);
    FirstLineEndsAtNewline(text);
    ShebangInsertShape(text, header, newline);
    FirstLineOfJoin(line, header + newline + text[|line|..]);
  }

  /** A file that is one unterminated `#!` line gets the detected newline
      to end that line, and the header on the next. */
  lemma ShebangOnlyLineTerminated(text: string, header: string, newline: string)
    requires StartsWith(text, "#!") && '\n' !in text
    requires newline == "\n" || newline == "\r\n"
    ensures var r := InsertAfterShebang(text, header, newline);
      && r == text + newline + header + newline
      && FirstLine(r) == text + newline
  {
    var line := text + newline;
    assert Find(newline, '\n') == |newline| - 1;
    FindAfterAbsent(text, newline, '\n');
    assert text + newline + header + newline == line + (header + newline);
    FirstLineOfJoin(line, header + newline);
  }

  /** Whatever the `#!` line is followed by, the result still starts with `#`. */
  lemma ShebangStaysInFront(text: string, header: string, newline: string)
    requires StartsWith(text, "#!")
    ensures var r := InsertAfterShebang(text, header, newline);
      |r| > 0 && r[0] == '#'
  {
    assert text[0] == '#';
  }

  // ---------------------------------------------------------------------
  // Byte-order mark
  // ---------------------------------------------------------------------

  /** A text that starts with byte-order marks comes out with exactly one,
      followed by the insertion into the text without its marks; a text
      without a mark does not gain one. */
  lemma BomKeptExactlyOnce(text: string, header: string, newline: string)
    requires StartsWith(header, "/*")
    ensures var r := InsertKeepingBom(text, header, newline);
      && (StartsWith(text, [Bom]) ==>
            && |r| >= 2 && r[0] == Bom && r[1] != Bom
            && exists n :: 1 <= n <= |text|
                 && (forall i :: 0 <= i < n ==> text[i] == Bom)
                 && (n == |text| || text[n] != Bom)
                 && r == [Bom] + InsertAfterShebang(text[n..], header, newline))
      && (!StartsWith(text, [Bom]) ==>
            && r == InsertAfterShebang(text, header, newline)
            && |r| >= 2 && r[0] != Bom)
  {
    var r := InsertKeepingBom(text, header, newline);
    if StartsWith(text, [Bom]) {
      var t := LStripChar(text, Bom);
      var n := |text| - |t|;
      assert t == text[n..];
      var s := InsertAfterShebang(t, header, newline);
      assert r == [Bom] + s;
      if StartsWith(t, "#!") {
        assert s[0] == t[0];
      } else {
        assert s[0] == header[0];
      }
      assert r[1] == s[0];
    } else {
      var s := InsertAfterShebang(text, header, newline);
      if StartsWith(text, "#!") {
        assert s[0] == text[0];
      } else {
        assert s[0] == header[0];
      }
    }
  }

  // ---------------------------------------------------------------------
  // Running the hook a second time
  // ---------------------------------------------------------------------

  /** What a rewrite writes, once it writes anything. */
  lemma RewriteWrites(raw: seq<byte>, text: string, filename: string, author: string, today: Date)
    requires ValidMonth(today)
    requires Rewrite(raw, text, filename, author, today).Some?
    ensures Rewrite(raw, text, filename, author, today).value
         == InsertKeepingBom(text, BuildHeader(filename, FormatDateHuman(today), author), DetectLineEnding(raw))
  {
  }

  /** The insertion starts with the `#` of a `#!` line or the `/` of the
      header, never with a mark. */
  lemma InsertionFirstChar(t: string, header: string, newline: string)
    requires StartsWith(header, "/*")
    ensures var s := InsertAfterShebang(t, header, newline);
      |s| > 0 && (s[0] == '#' || s[0] == '/')
  {
    if StartsWith(t, "#!") {
      ShebangStaysInFront(t, header, newline);
    } else {
      var s := InsertAfterShebang(t, header, newline);
      assert s == header + (newline + t);
      assert s[0] == header[0];
    }
  }

  /** A text that does not start with a mark has no marks to strip. */
  lemma UnmarkedKept(text: string)
    requires !StartsWith(text, [Bom])
    ensures LStripChar(text, Bom) == text
  {
    if |text| > 0 {
      assert text[..1] == [text[0]];
    }
  }

  /** How many characters the byte-order mark the hook keeps takes up. */
  function MarkLength(text: string): nat {
    if StartsWith(text, [Bom]) then 1 else 0
  }

  /** After the byte-order-mark step, the output is one mark exactly when
      the input had any, followed by the insertion into the mark-free text,
      which does not start with a mark. */
  lemma MarkThenInsertion(text: string, header: string, newline: string)
    requires StartsWith(header, "/*")
    ensures var r := InsertKeepingBom(text, header, newline);
      var b := MarkLength(text);
      && |r| > b
      && (b == 1 ==> r[0] == Bom)
      && r[b..] == InsertAfterShebang(LStripChar(text, Bom), header, newline)
      && r[b] != Bom
  {
    var t := LStripChar(text, Bom);
    var s := InsertAfterShebang(t, header, newline);
    InsertionFirstChar(t, header, newline);
    if StartsWith(text, [Bom]) {
      assert InsertKeepingBom(text, header, newline) == [Bom] + s;
      assert ([Bom] + s)[1..] == s;
    } else {
      UnmarkedKept(text);
      assert InsertKeepingBom(text, header, newline) == s;
    }
  }

  /** `piece` sits in `r` at `at`, and cutting it out of `r[from..]` leaves `rest`. */
  predicate CutOutAt(r: string, from: nat, at: nat, piece: string, rest: string) {
    && from <= at && at + |piece| <= |r|
    && r[at..at + |piece|] == piece
    && r[from..at] + r[at + |piece|..] == rest
  }

  /** The insertion into a text it does not merely terminate puts
      `header + newline` at the insertion point, and cutting that out gives
      the text back. */
  lemma InsertionCut(t: string, header: string, newline: string)
    requires !StartsWith(t, "#!") || '\n' in t
    ensures CutOutAt(InsertAfterShebang(t, header, newline), 0, InsertionPoint(t), header + newline, t)
  {
    var s := InsertAfterShebang(t, header, newline);
    InsertionIsReversible(t, header, newline);
    assert s[0..InsertionPoint(t)] == s[..InsertionPoint(t)];
  }

  /** What a run writes: the input's mark, once, if it had any; then the
      mark-free text with `header + newline` inserted at its insertion point,
      so that cutting that out gives the mark-free text back. A `#!` file of
      one unterminated line gets the newline, then the header and a newline. */
  lemma RewriteOutput(raw: seq<byte>, text: string, filename: string, author: string, today: Date)
    requires ValidMonth(today)
    requires Rewrite(raw, text, filename, author, today).Some?
    ensures var r := Rewrite(raw, text, filename, author, today).value;
      var h := BuildHeader(filename, FormatDateHuman(today), author);
      var nl := DetectLineEnding(raw);
      var b := MarkLength(text);
      var t := LStripChar(text, Bom);
      && |r| > b && r[b] != Bom
      && (r[0] == Bom <==> StartsWith(text, [Bom]))
      && ((!StartsWith(t, "#!") || '\n' in t) ==> CutOutAt(r[b..], 0, InsertionPoint(t), h + nl, t))
      && ((StartsWith(t, "#!") && '\n' !in t) ==> r[b..] == t + nl + h + nl)
  {
    var h := BuildHeader(filename, FormatDateHuman(today), author);
    var nl := DetectLineEnding(raw);
    var t := LStripChar(text, Bom);
    RewriteWrites(raw, text, filename, author, today);
    HeaderIsBlockComment(filename, FormatDateHuman(today), author);
    MarkThenInsertion(text, h, nl);
    if !StartsWith(t, "#!") || '\n' in t {
      InsertionCut(t, h, nl);
    } else {
      ShebangOnlyLineTerminated(t, h, nl);
    }
  }

  /** Without a byte-order mark or a `#!` line, the header goes in front. */
  lemma PlainInsert(text: string, header: string, newline: string)
    requires !StartsWith(text, [Bom]) && !StartsWith(text, "#!")
    ensures InsertKeepingBom(text, header, newline) == header + (newline + text)
  {
  }

  /** A file with neither a byte-order mark nor a `#!` line is left alone
      by a second run: its new text is detected as carrying the header. */
  lemma SecondPassLeavesFileAlone(raw: seq<byte>, text: string, filename: string, author: string,
                                  today: Date, raw2: seq<byte>, filename2: string, today2: Date)
    requires ValidMonth(today) && ValidMonth(today2)
    requires !StartsWith(text, [Bom]) && !StartsWith(text, "#!")
    requires Rewrite(raw, text, filename, author, today).Some?
    ensures Rewrite(raw2, Rewrite(raw, text, filename, author, today).value, filename2, author, today2).None?
  {
    var h := BuildHeader(filename, FormatDateHuman(today), author);
    var nl := DetectLineEnding(raw);
    RewriteWrites(raw, text, filename, author, today);
    PlainInsert(text, h, nl);
    HeaderDetectedAtStart(filename, FormatDateHuman(today), author, nl + text);
  }

  /** A file that began with a byte-order mark is rewritten again by every
      later run: the mark stays in front of the header, and the detector
      does not skip it. */
  lemma SecondPassRewritesBomFile(raw: seq<byte>, text: string, filename: string, author: string,
                                  today: Date, raw2: seq<byte>, filename2: string, today2: Date)
    requires ValidMonth(today) && ValidMonth(today2)
    requires StartsWith(text, [Bom])
    requires Rewrite(raw, text, filename, author, today).Some?
    ensures Rewrite(raw2, Rewrite(raw, text, filename, author, today).value, filename2, author, today2).Some?
  {
    var h := BuildHeader(filename, FormatDateHuman(today), author);
    var o := Rewrite(raw, text, filename, author, today).value;
    RewriteWrites(raw, text, filename, author, today);
    HeaderIsBlockComment(filename, FormatDateHuman(today), author);
    BomKeptExactlyOnce(text, h, DetectLineEnding(raw));
    NotDetectedBehindOtherFirstChar(o, author);
  }

  /** A `#!` file is rewritten again by every later run: the header sits
      after the `#!` line, where the detector does not look. */
  lemma SecondPassRewritesShebangFile(raw: seq<byte>, text: string, filename: string, author: string,
                                      today: Date, raw2: seq<byte>, filename2: string, today2: Date)
    requires ValidMonth(today) && ValidMonth(today2)
    requires StartsWith(text, "#!")
    requires Rewrite(raw, text, filename, author, today).Some?
    ensures Rewrite(raw2, Rewrite(raw, text, filename, author, today).value, filename2, author, today2).Some?
  {
    var h := BuildHeader(filename, FormatDateHuman(today), author);
    var o := InsertAfterShebang(text, h, DetectLineEnding(raw));
    RewriteWrites(raw, text, filename, author, today);
    assert text[0] == '#';
    ShebangStaysInFront(text, h, DetectLineEnding(raw));
    NotDetectedBehindOtherFirstChar(o, author);
  }

  // ---------------------------------------------------------------------
  // Staged status
  // ---------------------------------------------------------------------

  /** The first record about the file decides; records after it, even about
      the same file, are ignored. */
  lemma FirstRecordDecides(rel: string, before: seq<string>, line: string, after: seq<string>,
                           norm: string -> string)
    requires forall j :: 0 <= j < |before| ==> !NamesPath(before[j], rel, norm)
    requires NamesPath(line, rel, norm)
    ensures IsAdded(NameStatus(rel, before + [line] + after), norm) <==> IsAddedStatus(StatusField(line))
  {
    var lines := before + [line] + after;
    assert lines[|before|] == line;
    assert IsFirstRecordFor(lines, |before|, rel, norm);
  }

  /** No record about the file, or a failed query: not added. */
  lemma UnlistedIsNotAdded(q: IndexQuery, norm: string -> string)
    requires q.QueryFailed? || forall j :: 0 <= j < |q.lines| ==> !NamesPath(q.lines[j], q.rel, norm)
    ensures !IsAdded(q, norm)
  {
  }

  /** Leading whitespace ends at the first character that is not whitespace. */
  lemma {:induction false} LStripStopsAt(s: string, k: int)
    requires 0 <= k < |s| && !IsSpace(s[k])
    requires forall i :: 0 <= i < k ==> IsSpace(s[i])
    ensures LStrip(s) == s[k..]
  {
    if k > 0 {
      assert IsSpace(s[0]);
      assert s[1..][k - 1] == s[k];
      LStripStopsAt(s[1..], k - 1);
      assert s[1..][k - 1..] == s[k..];
    }
  }

  /** Stripping the right end keeps the first character of a text that does
      not begin with whitespace. */
  lemma StripKeepsFirst(s: string)
    requires |LStrip(s)| > 0
    ensures |Strip(s)| > 0 && Strip(s)[0] == LStrip(s)[0]
  {
  }

  /** The status test in declarative form: the first character of the
      status that is not whitespace upper-cases to something starting with
      `A`. Trailing whitespace plays no part. */
  lemma IsAddedStatusIff(status: string)
    ensures IsAddedStatus(status) <==>
      exists k :: 0 <= k < |status| && UpperStartsWithA(status[k])
                  && forall i :: 0 <= i < k ==> IsSpace(status[i])
  {
    var l := LStrip(status);
    var m := |status| - |l|;
    if IsAddedStatus(status) {
      StripKeepsFirst(status);
      assert UpperStartsWithA(status[m]);
    }
    if exists k :: 0 <= k < |status| && UpperStartsWithA(status[k])
                   && forall i :: 0 <= i < k ==> IsSpace(status[i]) {
      var k :| 0 <= k < |status| && UpperStartsWithA(status[k])
               && forall i :: 0 <= i < k ==> IsSpace(status[i]);
      LStripStopsAt(status, k);
      StripKeepsFirst(status);
    }
  }

  // ---------------------------------------------------------------------
  // Extension gate
  // ---------------------------------------------------------------------

  /** For a path `dir + stem + ext` whose stem is not made of dots alone,
      the gate compares the extension, lower-cased, against the supported
      set. */
  lemma ExtensionGate(dir: string, stem: string, ext: string)
    requires dir == [] || dir[|dir| - 1] == '/'
    requires |ext| >= 1 && ext[0] == '.'
    requires forall j :: 0 <= j < |stem| ==> stem[j] != '/'
    requires forall j :: 0 <= j < |ext| ==> ext[j] != '/'
    requires forall j :: 1 <= j < |ext| ==> ext[j] != '.'
    requires !AllDots(stem)
    ensures IsSupported(dir + stem + ext) <==> AsciiLower(ext) in SupportedExts
  {
    ExtensionOfPath(dir, stem, ext);
  }

  /** A path without an extension never passes the gate. */
  lemma NoExtensionRejected(p: string)
    requires DotsLead(Basename(p))
    ensures !IsSupported(p)
  {
    ExtensionEmptyIff(p);
    EmptyExtensionUnsupported();
  }

  lemma EmptyExtensionUnsupported()
    ensures AsciiLower([]) !in SupportedExts
  {
    assert AsciiLower([]) == [];
  }

  /** The gate ignores the case of the extension: `src/main.CPP` passes it. */
  lemma UpperCaseExtensionAccepted(dir: string, stem: string)
    requires dir == [] || dir[|dir| - 1] == '/'
    requires forall j :: 0 <= j < |stem| ==> stem[j] != '/'
    requires !AllDots(stem)
    ensures IsSupported(dir + stem + ".CPP")
  {
    ExtensionGate(dir, stem, ".CPP");
    LowerCpp();
  }

  lemma LowerCpp()
    ensures AsciiLower(".CPP") == ".cpp"
  {
    var l := AsciiLower(".CPP");
    assert l[0] == '.' && l[1] == 'c' && l[2] == 'p' && l[3] == 'p';
  }

  /** A hidden file named after an extension has no extension, so it is
      skipped. */
  lemma HiddenFileSkipped(dir: string)
    requires dir == [] || dir[|dir| - 1] == '/'
    ensures !IsSupported(dir + ".c")
  {
    BasenameAfterDir(dir, ".c");
    assert DotsLead(".c");
    NoExtensionRejected(dir + ".c");
  }

  // ---------------------------------------------------------------------
  // Date in the header
  // ---------------------------------------------------------------------

  /** The month number for an English month name. */
  function MonthNumber(name: string): Option<nat> {
    if name == "January" then Some(1)
    else if name == "February" then Some(2)
    else if name == "March" then Some(3)
    else if name == "April" then Some(4)
    else if name == "May" then Some(5)
    else if name == "June" then Some(6)
    else if name == "July" then Some(7)
    else if name == "August" then Some(8)
    else if name == "September" then Some(9)
    else if name == "October" then Some(10)
    else if name == "November" then Some(11)
    else if name == "December" then Some(12)
    else None
  }

  /** Reads back a date written as `Month D, YYYY`. */
  function ParseDateHuman(s: string): Option<Date> {
    var sp := Find(s, ' ');
    if sp < 0 then None
    else
      var month := MonthNumber(s[..sp]);
      var dayYear := ParseDayYear(s[sp + 1..]);
      if month.None? || dayYear.None? then None
      else Some(Date(dayYear.value.1, month.value, dayYear.value.0))
  }

  /** Reads back the `D, YYYY` part of a date. */
  function ParseDayYear(rest: string): Option<(nat, nat)> {
    var comma := Find(rest, ',');
    if comma < 0 then None
    else
      var day := rest[..comma];
      var tail := rest[comma + 1..];
      if |tail| == 0 || tail[0] != ' ' || !AllDigits(day) || !AllDigits(tail[1..]) then None
      else Some((ParseDecimal(day), ParseDecimal(tail[1..])))
  }

  /** Splitting at a character that the first piece lacks gives the pieces back. */
  lemma FindSeparator(a: string, c: char, b: string)
    requires forall j :: 0 <= j < |a| ==> a[j] != c
    ensures Find(a + [c] + b, c) == |a|
    ensures (a + [c] + b)[..|a|] == a
    ensures (a + [c] + b)[|a| + 1..] == b
  {
    var s := a + [c] + b;
    assert s[|a|] == c;
    assert forall j :: 0 <= j < |a| ==> s[j] == a[j];
    FindIs(s, c, |a|);
  }

  lemma MonthNameFacts(m: nat)
    requires 1 <= m <= 12
    ensures MonthNumber(MonthName(m)) == Some(m)
    ensures forall j :: 0 <= j < |MonthName(m)| ==> MonthName(m)[j] != ' '
  {
  }

  /** The day and the year, written unpadded with a comma between, read back. */
  lemma DayYearRoundTrip(day: nat, year: nat)
    ensures ParseDayYear(DecimalString(day) + ", " + DecimalString(year)) == Some((day, year))
  {
    var ds := DecimalString(day);
    var ys := DecimalString(year);
    assert ds + ", " + ys == ds + [','] + (" " + ys);
    FindSeparator(ds, ',', " " + ys);
    assert (" " + ys)[1..] == ys;
    ParseDecimalString(day);
    ParseDecimalString(year);
  }

  /** The date in the header determines the date it was made from: the
      month name, the unpadded day and the year can be read back. */
  lemma FormatDateRoundTrip(d: Date)
    requires ValidMonth(d)
    ensures ParseDateHuman(FormatDateHuman(d)) == Some(d)
  {
    var name := MonthName(d.month);
    var rest := DecimalString(d.day) + ", " + DecimalString(d.year);
    assert FormatDateHuman(d) == name + [' '] + rest;
    MonthNameFacts(d.month);
    FindSeparator(name, ' ', rest);
    DayYearRoundTrip(d.day, d.year);
  }
}
