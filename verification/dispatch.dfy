/** The extension dispatch of `FileProcessor.process_file`: the file's suffix,
    lower-cased, selects the PDF, DOCX or plain-text extractor; every other
    suffix yields `None`. The extractors themselves are foreign code and
    enter the model as an opaque function. */
module Dispatch {
  import opened Wrappers
  import opened Text

  /** The three text extractors of the file processor. */
  datatype Extractor = PdfExtractor | DocxExtractor | TxtExtractor

  /** Index of the last occurrence of `c` in `s`, or -1 when there is none
      (Python's `str.rfind`). */
  function LastIndex(s: string, c: char): (i: int)
    ensures -1 <= i < |s|
    ensures i >= 0 ==> s[i] == c
    ensures forall j :: i < j < |s| ==> s[j] != c
    decreases |s|
  {
    if |s| == 0 then -1
    else if s[|s| - 1] == c then |s| - 1
    else LastIndex(s[..|s| - 1], c)
  }

  /** The final component of a POSIX path, as `pathlib.PurePath.name`
      computes it: empty and "." components are dropped, so trailing
      slashes and "/." do not count. */
  function Name(p: string): (name: string)
    ensures '/' !in name
    ensures name != "."
    decreases |p|
  {
    var i := LastIndex(p, '/');
    var segment := p[i + 1..];
    if segment == "" || segment == "." then
      if i < 0 then "" else Name(p[..i])
    else
      segment
  }

  /** The suffix of a final path component: from its last '.', provided
      that dot is neither the component's first nor its last character. */
  function NameSuffix(name: string): (ext: string)
    requires '/' !in name
    ensures ext == "" || (ext[0] == '.' && |ext| >= 2 && '.' !in ext[1..] && '/' !in ext)
    ensures ext != "" <==> HasSuffix(name)
    ensures ext != "" ==> |ext| < |name| && name[|name| - |ext|..] == ext
  {
    var i := LastIndex(name, '.');
    if 0 < i < |name| - 1 then
      name[i..]
    else
      assert !HasSuffix(name) by {
        if |name| > 0 && name[|name| - 1] != '.' {
          assert forall j :: 0 < j < |name| ==> name[j] != '.';
        }
      }
      ""
  }

  /** A final component has a suffix when it does not end in a dot and has
      a dot after its first character. */
  predicate HasSuffix(name: string)
  {
    && |name| > 0
    && name[|name| - 1] != '.'
    && exists j :: 0 < j < |name| && name[j] == '.'
  }

  /** `pathlib.PurePath.suffix`: the suffix of the path's final component,
      which ends that component and is empty exactly when it has none. */
  function Suffix(p: string): (ext: string)
    ensures ext == "" || (ext[0] == '.' && |ext| >= 2 && '.' !in ext[1..] && '/' !in ext)
    ensures ext != "" <==> HasSuffix(Name(p))
    ensures var name := Name(p);
            ext != "" ==> |ext| < |name| && name[|name| - |ext|..] == ext
  {
    NameSuffix(Name(p))
  }

  /** The extractor for a lower-cased suffix, or `None` for an
      unsupported type. */
  function ExtractorFor(ext: string): (e: Option<Extractor>)
    ensures e == Some(PdfExtractor) <==> ext == ".pdf"
    ensures e == Some(DocxExtractor) <==> ext == ".docx"
    ensures e == Some(TxtExtractor) <==> ext == ".txt"
    ensures e == None <==> ext !in {".pdf", ".docx", ".txt"}
  {
    if ext == ".pdf" then Some(PdfExtractor)
    else if ext == ".docx" then Some(DocxExtractor)
    else if ext == ".txt" then Some(TxtExtractor)
    else None
  }

  /** The extractor chosen for a path, or `None` for an unsupported type. */
  function SelectExtractor(p: string): (e: Option<Extractor>)
    ensures e == Some(PdfExtractor) <==> Lower(Suffix(p)) == ".pdf"
    ensures e == Some(DocxExtractor) <==> Lower(Suffix(p)) == ".docx"
    ensures e == Some(TxtExtractor) <==> Lower(Suffix(p)) == ".txt"
    ensures e == None <==> Lower(Suffix(p)) !in {".pdf", ".docx", ".txt"}
  {
    ExtractorFor(Lower(Suffix(p)))
  }

  /** `process_file`: run the selected extractor, whose own failures are
      also reported as `None`. */
  function ProcessFile(p: string, extract: (Extractor, string) -> Option<string>): (text: Option<string>)
    ensures SelectExtractor(p).None? ==> text == None
    ensures SelectExtractor(p).Some? ==> text == extract(SelectExtractor(p).value, p)
  {
    match SelectExtractor(p)
    case None => None
    case Some(e) => extract(e, p)
  }

  /** A path ending in a non-empty file name `stem + ext`, with `ext` a
      dot followed by at least one character and no further dot, has
      exactly `ext` as its suffix, whatever directory precedes it. */
  lemma SuffixOfNamedFile(dir: string, stem: string, ext: string)
    requires dir == "" || dir[|dir| - 1] == '/'
    requires |stem| > 0 && '/' !in stem
    requires |ext| >= 2 && ext[0] == '.' && '.' !in ext[1..] && '/' !in ext
    ensures Name(dir + stem + ext) == stem + ext
    ensures Suffix(dir + stem + ext) == ext
  {
    var name := stem + ext;
    assert Name(dir + stem + ext) == name by {
      NameOfFile(dir, name);
      Associative(dir, stem, ext);
    }
    assert NameSuffix(name) == ext by {
      LastDotIn(stem, ext);
      assert name[|stem|..] == ext;
    }
  }

  /** The extractor of a path ending in `stem + ext` is decided by `ext`
      alone, whatever its case. */
  lemma SelectOfNamedFile(dir: string, stem: string, ext: string)
    requires dir == "" || dir[|dir| - 1] == '/'
    requires |stem| > 0 && '/' !in stem
    requires |ext| >= 2 && ext[0] == '.' && '.' !in ext[1..] && '/' !in ext
    ensures SelectExtractor(dir + stem + ext) == ExtractorFor(Lower(ext))
  {
    SuffixOfNamedFile(dir, stem, ext);
  }

  lemma Associative(a: string, b: string, c: string)
    ensures a + b + c == a + (b + c)
  {
  }

  lemma NameOfFile(dir: string, name: string)
    requires dir == "" || dir[|dir| - 1] == '/'
    requires name != "" && name != "." && '/' !in name
    ensures Name(dir + name) == name
  {
    LastSlashAfterDir(dir, name);
    assert (dir + name)[|dir|..] == name;
  }

  /** A trailing separator, or a trailing "/.", does not change the final
      component. */
  lemma TrailingSeparatorIgnored(p: string)
    ensures Name(p + "/") == Name(p)
    ensures Name(p + "/.") == Name(p)
  {
    var q := p + "/";
    assert LastIndex(q, '/') == |p|;
    assert q[..|p|] == p;
    assert q[|p| + 1..] == "";
    var r := p + "/.";
    assert r[..|r| - 1] == q;
    assert LastIndex(r, '/') == |p|;
    assert r[..|p|] == p;
    assert r[|p| + 1..] == ".";
  }

  lemma LastSlashAfterDir(dir: string, name: string)
    requires dir == "" || dir[|dir| - 1] == '/'
    requires '/' !in name
    ensures LastIndex(dir + name, '/') == |dir| - 1
    decreases |name|
  {
    if |name| == 0 {
      assert dir + name == dir;
      if dir != "" {
        assert dir == dir[..|dir| - 1] + [dir[|dir| - 1]];
      }
    } else {
      var p := dir + name;
      assert p[..|p| - 1] == dir + name[..|name| - 1];
      assert name[|name| - 1] in name;
      LastSlashAfterDir(dir, name[..|name| - 1]);
    }
  }

  lemma LastDotIn(stem: string, ext: string)
    requires |ext| >= 1 && ext[0] == '.' && '.' !in ext[1..]
    ensures LastIndex(stem + ext, '.') == |stem|
    decreases |ext|
  {
    var s := stem + ext;
    if |ext| == 1 {
      assert s[|s| - 1] == '.';
    } else {
      assert ext[|ext| - 1] in ext[1..];
      assert s[|s| - 1] == ext[|ext| - 1];
      assert s[..|s| - 1] == stem + ext[..|ext| - 1];
      assert ext[..|ext| - 1][1..] == ext[1..|ext| - 1];
      LastDotIn(stem, ext[..|ext| - 1]);
    }
  }

  /** Dispatch is case-insensitive: lower-casing the whole path leaves the
      selected extractor unchanged, for every path. */
  lemma SelectIgnoresCase(p: string)
    ensures SelectExtractor(Lower(p)) == SelectExtractor(p)
  {
    SuffixLower(p);
    LowerIdempotent(Suffix(p));
  }

  /** Lower-casing commutes with taking the suffix. */
  lemma SuffixLower(p: string)
    ensures Suffix(Lower(p)) == Lower(Suffix(p))
  {
    NameLower(p);
    NameSuffixLower(Name(p));
  }

  /** Lower-casing never creates or removes a separator or a dot. */
  lemma LowerCharKeeps(x: char, c: char)
    requires c == '/' || c == '.'
    ensures LowerChar(x) == c <==> x == c
  {
  }

  /** The last separator or dot sits at the same place after lower-casing. */
  lemma {:induction false} LastIndexLower(s: string, c: char)
    requires c == '/' || c == '.'
    ensures LastIndex(Lower(s), c) == LastIndex(s, c)
    decreases |s|
  {
    if |s| > 0 {
      var t := Lower(s);
      LowerCharKeeps(s[|s| - 1], c);
      assert t[..|t| - 1] == Lower(s[..|s| - 1]) by {
        LowerSlice(s, 0, |s| - 1);
        assert s[0..|s| - 1] == s[..|s| - 1];
      }
      LastIndexLower(s[..|s| - 1], c);
    }
  }

  /** Lower-casing commutes with taking the final path component. */
  lemma {:induction false} NameLower(p: string)
    ensures Name(Lower(p)) == Lower(Name(p))
    decreases |p|
  {
    var q := Lower(p);
    var i := LastIndex(p, '/');
    LastIndexLower(p, '/');
    var segment := p[i + 1..];
    assert q[i + 1..] == Lower(segment) by {
      LowerSlice(p, i + 1, |p|);
    }
    SegmentLower(segment);
    if (segment == "" || segment == ".") && i >= 0 {
      assert q[..i] == Lower(p[..i]) by {
        LowerSlice(p, 0, i);
      }
      NameLower(p[..i]);
    }
  }

  /** Lower-casing neither creates nor removes an empty or "." component. */
  lemma SegmentLower(segment: string)
    ensures Lower(segment) == "" <==> segment == ""
    ensures Lower(segment) == "." <==> segment == "."
  {
    if |segment| == 1 {
      LowerCharKeeps(segment[0], '.');
    }
  }

  /** Lower-casing commutes with taking the suffix of a final component. */
  lemma NameSuffixLower(name: string)
    requires '/' !in name
    ensures '/' !in Lower(name)
    ensures NameSuffix(Lower(name)) == Lower(NameSuffix(name))
  {
    var low := Lower(name);
    assert '/' !in low by {
      forall j | 0 <= j < |low| ensures low[j] != '/' {
        LowerCharKeeps(name[j], '/');
      }
    }
    var i := LastIndex(name, '.');
    assert LastIndex(low, '.') == i by {
      LastIndexLower(name, '.');
    }
    if 0 < i < |name| - 1 {
      assert low[i..] == Lower(name[i..]) by {
        LowerSlice(name, i, |name|);
        assert name[i..|name|] == name[i..];
      }
    } else {
      assert Lower("") == "";
    }
  }

  /** The upper- and mixed-case suffixes of the examples below, folded. */
  lemma LowerSuffixes()
    ensures Lower(".PDF") == ".pdf"
    ensures Lower(".Docx") == ".docx"
    ensures Lower(".TXT") == ".txt"
  {
  }

  /** Concrete cases of the rule, for a file `stem` in any directory `dir`:
      upper- and mixed-case suffixes select their extractor, and of a
      compound suffix only the last part counts. */
  lemma UpperCasePdf(dir: string, stem: string)
    requires dir == "" || dir[|dir| - 1] == '/'
    requires |stem| > 0 && '/' !in stem
    ensures SelectExtractor(dir + stem + ".PDF") == Some(PdfExtractor)
  {
    assert SelectExtractor(dir + stem + ".PDF") == ExtractorFor(Lower(".PDF")) by {
      assert ".PDF"[1..] == "PDF";
      SelectOfNamedFile(dir, stem, ".PDF");
    }
    LowerSuffixes();
  }

  lemma MixedCaseDocx(dir: string, stem: string)
    requires dir == "" || dir[|dir| - 1] == '/'
    requires |stem| > 0 && '/' !in stem
    ensures SelectExtractor(dir + stem + ".Docx") == Some(DocxExtractor)
  {
    assert SelectExtractor(dir + stem + ".Docx") == ExtractorFor(Lower(".Docx")) by {
      assert ".Docx"[1..] == "Docx";
      SelectOfNamedFile(dir, stem, ".Docx");
    }
    LowerSuffixes();
  }

  lemma UpperCaseTxt(dir: string, stem: string)
    requires dir == "" || dir[|dir| - 1] == '/'
    requires |stem| > 0 && '/' !in stem
    ensures SelectExtractor(dir + stem + ".TXT") == Some(TxtExtractor)
  {
    assert SelectExtractor(dir + stem + ".TXT") == ExtractorFor(Lower(".TXT")) by {
      assert ".TXT"[1..] == "TXT";
      SelectOfNamedFile(dir, stem, ".TXT");
    }
    LowerSuffixes();
  }

  lemma CompoundSuffix(dir: string, stem: string)
    requires dir == "" || dir[|dir| - 1] == '/'
    requires |stem| > 0 && '/' !in stem
    ensures Suffix(dir + (stem + ".txt") + ".gz") == ".gz"
    ensures SelectExtractor(dir + (stem + ".txt") + ".gz") == None
  {
    var name := stem + ".txt";
    assert '/' !in name by {
      assert forall j :: 0 <= j < |stem| ==> name[j] == stem[j];
    }
    assert Suffix(dir + name + ".gz") == ".gz" by {
      SuffixOfNamedFile(dir, name, ".gz");
    }
    assert Lower(".gz") == ".gz";
  }

  lemma NoSuffixExamples()
    ensures Suffix("/home/u/.txt") == ""
    ensures SelectExtractor("/home/u/.txt") == None
    ensures Suffix("notes.") == ""
  {
    NameOfFile("/home/u/", ".txt");
    assert "/home/u/" + ".txt" == "/home/u/.txt";
    LastDotIn("", ".txt");
    NameOfFile("", "notes.");
    assert "" + "notes." == "notes.";
    assert LastIndex("notes.", '.') == 5;
  }
}
