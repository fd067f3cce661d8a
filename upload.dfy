/** Upload validation: which file names the application accepts. */
module Upload {
  import opened Text

  /** The extensions an upload may carry, in lower case. */
  const AllowedExtensions: set<string> := {"pdf", "docx"}

  /** A file name is accepted when it holds a '.' and the text after its last
      '.', lower-cased, is one of the allowed extensions. */
  predicate AllowedFile(filename: string): (r: bool)
    ensures r ==> '.' in filename && |filename| >= |".pdf"|
  {
    '.' in filename && Lower(AfterLastDot(filename)) in AllowedExtensions
  }

  /** Only the text after the last '.' decides, and it is compared without
      regard to case. */
  lemma {:induction false} AllowedFileOfSplit(prefix: string, ext: string)
    requires '.' !in ext
    ensures AllowedFile(prefix + ['.'] + ext) <==> Lower(ext) == "pdf" || Lower(ext) == "docx"
  {
    AfterLastDotOfSplit(prefix, ext);
    assert Lower(ext) in AllowedExtensions <==> Lower(ext) == "pdf" || Lower(ext) == "docx";
  }

  /** Lower-casing leaves a string without upper-case ASCII letters unchanged. */
  lemma LowerIdentity(s: string)
    requires forall i :: 0 <= i < |s| ==> !('A' <= s[i] <= 'Z')
    ensures Lower(s) == s
  {
  }

  /** A reference definition of the validator: a name is accepted exactly when,
      lower-cased, it ends in ".pdf" or ".docx". A name without any '.' is
      therefore always refused. */
  lemma AllowedFileIffLowerSuffix(filename: string)
    ensures AllowedFile(filename) <==>
            EndsWith(Lower(filename), ".pdf") || EndsWith(Lower(filename), ".docx")
  {
    DotSuffixes();
    if AllowedFile(filename) {
      AllowedHasLowerSuffix(filename);
    } else if EndsWith(Lower(filename), ".pdf") {
      LowerSuffixAllowed(filename, "pdf");
    } else if EndsWith(Lower(filename), ".docx") {
      LowerSuffixAllowed(filename, "docx");
    }
  }

  /** An accepted name, lower-cased, ends in '.' and its allowed extension. */
  lemma AllowedHasLowerSuffix(filename: string)
    requires AllowedFile(filename)
    ensures EndsWith(Lower(filename), ".pdf") || EndsWith(Lower(filename), ".docx")
  {
    var ext := AfterLastDot(filename);
    var k := |filename| - |ext| - 1;
    assert Lower(filename)[k] == '.';
    assert Lower(filename)[k + 1..] == Lower(ext) by {
      LowerSlice(filename, k + 1, |filename|);
    }
    assert Lower(filename)[k..] == ['.'] + Lower(ext);
    DotExtensionSuffix(Lower(filename), k, Lower(ext));
  }

  /** A string whose tail is '.' and an allowed extension ends in ".pdf" or
      ".docx". */
  lemma DotExtensionSuffix(s: string, k: nat, ext: string)
    requires ext in AllowedExtensions && k <= |s| && s[k..] == ['.'] + ext
    ensures EndsWith(s, ".pdf") || EndsWith(s, ".docx")
  {
    DotSuffixes();
  }

  /** The dispatch suffixes are a '.' followed by an allowed extension. */
  lemma DotSuffixes()
    ensures ".pdf" == ['.'] + "pdf" && ".docx" == ['.'] + "docx"
  {
  }

  /** Lower-casing commutes with slicing. */
  lemma LowerSlice(s: string, i: nat, j: nat)
    requires i <= j <= |s|
    ensures Lower(s[i..j]) == Lower(s)[i..j]
  {
  }

  /** Only '.' lower-cases to '.'. */
  lemma LowerKeepsDots(s: string)
    ensures '.' in Lower(s) <==> '.' in s
  {
    if '.' in s {
      var i :| 0 <= i < |s| && s[i] == '.';
      assert Lower(s)[i] == '.';
    }
    if '.' in Lower(s) {
      var i :| 0 <= i < |s| && Lower(s)[i] == '.';
      assert LowerChar(s[i]) == '.';
    }
  }

  /** A name whose lower-cased form ends in '.' and an allowed extension is
      accepted. */
  lemma LowerSuffixAllowed(filename: string, ext: string)
    requires ext in AllowedExtensions
    requires EndsWith(Lower(filename), ['.'] + ext)
    ensures AllowedFile(filename)
  {
    assert '.' !in ext;
    var prefix, e := LowerDotSplit(filename, ext);
    SplitAllowed(prefix, e, ext);
  }

  /** A name whose lower-cased form ends in '.' and a dot-free `ext` is a
      prefix, a '.' and a dot-free part that lower-cases to `ext`. */
  lemma LowerDotSplit(filename: string, ext: string) returns (prefix: string, e: string)
    requires '.' !in ext
    requires EndsWith(Lower(filename), ['.'] + ext)
    ensures filename == prefix + ['.'] + e && Lower(e) == ext && '.' !in e
  {
    var k := |filename| - |ext| - 1;
    prefix, e := filename[..k], filename[k + 1..];
    assert filename[k] == '.' by {
      assert Lower(filename)[k] == '.';
    }
    assert Lower(e) == ext by {
      LowerSlice(filename, k + 1, |filename|);
    }
    assert '.' !in e by {
      LowerKeepsDots(e);
    }
    assert filename == prefix + ['.'] + e;
  }

  /** The split form of LowerSuffixAllowed. */
  lemma SplitAllowed(prefix: string, e: string, ext: string)
    requires ext in AllowedExtensions && Lower(e) == ext && '.' !in e
    ensures AllowedFile(prefix + ['.'] + e)
  {
    AllowedFileOfSplit(prefix, e);
  }

  /** The exact-case suffixes the request handler dispatches on are accepted
      by the validator. */
  lemma ExactSuffixIsAllowed(filename: string)
    requires EndsWith(filename, ".docx") || EndsWith(filename, ".pdf")
    ensures AllowedFile(filename)
  {
    DotSuffixes();
    if EndsWith(filename, ".docx") {
      SuffixAllowed(filename, "docx");
    } else {
      SuffixAllowed(filename, "pdf");
    }
  }

  /** A name that ends in '.' followed by an allowed extension, as written, is
      accepted. */
  lemma SuffixAllowed(filename: string, ext: string)
    requires ext in AllowedExtensions
    requires EndsWith(filename, ['.'] + ext)
    ensures AllowedFile(filename)
  {
    assert '.' !in ext && Lower(ext) == ext by {
      LowerIdentity(ext);
    }
    var prefix := filename[..|filename| - |ext| - 1];
    assert filename == prefix + ['.'] + ext;
    AllowedFileOfSplit(prefix, ext);
  }

  /** A doubled extension is judged by its last part, whatever its case. */
  lemma DoubledExtensionExample()
    ensures AllowedFile("a.tar.DOCX")
  {
    assert "a.tar.DOCX" == "a.tar" + ['.'] + "DOCX";
    assert Lower("DOCX") == "docx";
    AllowedFileOfSplit("a.tar", "DOCX");
  }

  /** The extension alone is an accepted name, and so is an upper-case one. */
  lemma BareAndUpperCaseExtensionExamples()
    ensures AllowedFile(".pdf")
    ensures AllowedFile("X.PDF")
  {
    assert ".pdf" == "" + ['.'] + "pdf";
    assert Lower("pdf") == "pdf";
    AllowedFileOfSplit("", "pdf");
    assert "X.PDF" == "X" + ['.'] + "PDF";
    assert Lower("PDF") == "pdf";
    AllowedFileOfSplit("X", "PDF");
  }

  /** An allowed word before the last '.' does not help, and neither does an
      allowed word with no '.' at all. */
  lemma RejectedExamples()
    ensures !AllowedFile("docx.txt")
    ensures !AllowedFile("docx")
  {
    assert "docx.txt" == "docx" + ['.'] + "txt";
    assert Lower("txt") == "txt";
    AllowedFileOfSplit("docx", "txt");
    assert '.' !in "docx";
  }
}
