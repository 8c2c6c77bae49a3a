/**
 The two `posixpath` functions whose results the hook uses: `basename` (for
 the file name written into the header) and the extension half of
 `splitext` (for the extension gate).
 */
module PyPath {
  import opened PyStr

  /** `os.path.basename(p)`: everything after the last `/`. */
  function Basename(p: string): (b: string)
    ensures |b| <= |p| && b == p[|p| - |b|..]
    ensures forall j :: 0 <= j < |b| ==> b[j] != '/'
    ensures |b| < |p| ==> p[|p| - |b| - 1] == '/'
  {
    var sep := RFind(p, '/');
    p[sep + 1..]
  }

  predicate AllDots(s: string) {
    forall j :: 0 <= j < |s| ==> s[j] == '.'
  }

  /** `os.path.splitext(p)[1]`: from the last dot of the last path component,
      unless every character before that dot in the component is a dot too
      (so `.c` alone, a hidden file, has no extension). */
  function Extension(p: string): (e: string)
    ensures e == [] || (e[0] == '.' && forall j :: 1 <= j < |e| ==> e[j] != '.')
    ensures |e| < |Basename(p)| || e == []
    ensures e == Basename(p)[|Basename(p)| - |e|..]
  {
    ExtensionOfName(Basename(p))
  }

  /** The extension of one path component. */
  function ExtensionOfName(base: string): (e: string)
    ensures e == [] || (e[0] == '.' && forall j :: 1 <= j < |e| ==> e[j] != '.')
    ensures |e| < |base| || e == []
    ensures e == base[|base| - |e|..]
  {
    var dot := RFind(base, '.');
    if dot > 0 && !AllDots(base[..dot]) then base[dot..] else []
  }

  /** Every dot of the name has only dots before it. */
  predicate DotsLead(base: string) {
    forall j, k :: 0 <= j < k < |base| && base[k] == '.' ==> base[j] == '.'
  }

  /** A name without `/`, after a directory that ends in `/` (or after
      nothing), is the base name of the path. */
  lemma BasenameAfterDir(dir: string, name: string)
    requires dir == [] || dir[|dir| - 1] == '/'
    requires forall j :: 0 <= j < |name| ==> name[j] != '/'
    ensures Basename(dir + name) == name
  {
    var p := dir + name;
    if dir == [] {
      assert p == name;
      assert '/' !in p;
    } else {
      forall j | |dir| - 1 < j < |p|
        ensures p[j] != '/'
      {
        assert p[j] == name[j - |dir|];
      }
      RFindIs(p, '/', |dir| - 1);
      assert p[|dir|..] == name;
    }
  }

  /** The last dot of `stem + ext` is the dot that opens `ext`. */
  lemma LastDotOpensExtension(stem: string, ext: string)
    requires |ext| >= 1 && ext[0] == '.'
    requires forall j :: 1 <= j < |ext| ==> ext[j] != '.'
    ensures RFind(stem + ext, '.') == |stem|
  {
    var p := stem + ext;
    assert p[|stem|] == '.';
    forall j | |stem| < j < |p|
      ensures p[j] != '.'
    {
      assert p[j] == ext[j - |stem|];
    }
    RFindIs(p, '.', |stem|);
  }

  /** `splitext` on a path `dir + stem + ext`: when the stem is not made of
      dots alone, the extension is the part from the last dot on. */
  lemma ExtensionOfPath(dir: string, stem: string, ext: string)
    requires dir == [] || dir[|dir| - 1] == '/'
    requires |ext| >= 1 && ext[0] == '.'
    requires forall j :: 0 <= j < |stem| ==> stem[j] != '/'
    requires forall j :: 0 <= j < |ext| ==> ext[j] != '/'
    requires forall j :: 1 <= j < |ext| ==> ext[j] != '.'
    requires !AllDots(stem)
    ensures Extension(dir + stem + ext) == ext
  {
    var name := stem + ext;
    forall j | 0 <= j < |name|
      ensures name[j] != '/'
    {
      if j < |stem| { assert name[j] == stem[j]; } else { assert name[j] == ext[j - |stem|]; }
    }
    assert dir + stem + ext == dir + name;
    BasenameAfterDir(dir, name);
    LastDotOpensExtension(stem, ext);
    assert name[..|stem|] == stem;
  }

  /** A name has no extension exactly when every dot in it has only dots
      before it: no dot at all, or a hidden-file name such as `.c`. */
  lemma ExtensionOfNameEmptyIff(base: string)
    ensures ExtensionOfName(base) == [] <==> DotsLead(base)
  {
    var dot := RFind(base, '.');
    if ExtensionOfName(base) == [] && dot > 0 {
      forall j, k | 0 <= j < k < |base| && base[k] == '.'
        ensures base[j] == '.'
      {
        assert base[..dot][j] == base[j];
      }
    }
    if DotsLead(base) && dot > 0 {
      forall j | 0 <= j < dot
        ensures base[..dot][j] == '.'
      {
        assert base[j] == '.';
      }
    }
  }

  /** There is no extension exactly when every dot of the base name has only
      dots before it. */
  lemma ExtensionEmptyIff(p: string)
    ensures Extension(p) == [] <==> DotsLead(Basename(p))
  {
    ExtensionOfNameEmptyIff(Basename(p));
  }
}
