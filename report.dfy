/** The analysis report as the core sees it: `<file>` elements holding `<error>` elements. */
module Report {
  import opened Wrappers
  import opened PyBuiltins

  /** An `<error>` element: its `line`, `severity` and `message` attributes, and the `filePath`
      attribute that the change filter adds to the errors it keeps. */
  datatype ErrorNode = ErrorNode(line: string, severity: string, message: string, filePath: Option<string>)

  /** A `<file>` element: its `name` attribute and its `<error>` children in document order. */
  datatype FileNode = FileNode(name: string, errors: seq<ErrorNode>)

  /** The number of `<error>` elements in a sequence of `<file>` elements. */
  function TotalErrors(files: seq<FileNode>): nat {
    if files == [] then 0 else TotalErrors(files[..|files| - 1]) + |files[|files| - 1].errors|
  }

  /** The report's file name made relative to the repository checkout:
      `name.replace(repoDir + '/', '')`, which deletes every occurrence, not only a leading one. */
  function RepoRelative(name: string, repoDir: string): string {
    RemoveAll(name, repoDir + "/")
  }

  /** An absolute name under the checkout loses exactly its checkout prefix, provided the prefix
      does not occur again further down the path. */
  lemma RepoRelativeOfCheckoutPath(repoDir: string, rel: string)
    requires !Occurs(rel, repoDir + "/")
    ensures RepoRelative(repoDir + "/" + rel, repoDir) == rel
  {
    var pat := repoDir + "/";
    var s := pat + rel;
    assert repoDir + "/" + rel == s;
    assert s[..|pat|] == pat;
    assert s[|pat|..] == rel;
    RemoveAllAbsent(rel, pat);
  }

  /** A name that does not mention the checkout is left unchanged. */
  lemma RepoRelativeOutsideCheckout(name: string, repoDir: string)
    requires !Occurs(name, repoDir + "/")
    ensures RepoRelative(name, repoDir) == name
  {
    RemoveAllAbsent(name, repoDir + "/");
  }

  /** Every occurrence is deleted: a checkout directory whose path shows up again inside the
      checkout takes the inner directories with it. */
  lemma RepoRelativeRemovesInnerOccurrence()
    ensures RepoRelative("/r/lib/r/x", "/r") == "libx"
  {
    var pat := "/r/";
    assert RemoveAll("x", pat) == "x";
    assert RemoveAll("/r/x", pat) == "x" by {
      assert "/r/x"[..3] == pat && "/r/x"[3..] == "x";
    }
    assert RemoveAll("b/r/x", pat) == "bx" by {
      assert "b/r/x"[..3] != pat && "b/r/x"[1..] == "/r/x";
    }
    assert RemoveAll("ib/r/x", pat) == "ibx" by {
      assert "ib/r/x"[..3] != pat && "ib/r/x"[1..] == "b/r/x";
    }
    assert RemoveAll("lib/r/x", pat) == "libx" by {
      assert "lib/r/x"[..3] != pat && "lib/r/x"[1..] == "ib/r/x";
    }
    assert "/r/lib/r/x"[..3] == pat && "/r/lib/r/x"[3..] == "lib/r/x";
  }
}
