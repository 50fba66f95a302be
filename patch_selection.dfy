/** Which files of a pull request get a patch file written (util.py:118-122): those not removed
    whose extension, as `os.path.splitext` computes it, is `.php` or `.js`. */
module PatchSelection {
  import opened PyBuiltins

  /** The test at util.py:121, negated: the file is kept. */
  predicate Selected(status: string, filename: string) {
    status != "removed" && Extension(filename) in [".php", ".js"]
  }

  /** Only files still in the pull request whose names end in `.php` or `.js` are selected. */
  lemma SelectedNames(status: string, filename: string)
    ensures Selected(status, filename) ==> status != "removed"
    ensures Selected(status, filename) ==>
      (|filename| >= 4 && filename[|filename| - 4..] == ".php") || (|filename| >= 3 && filename[|filename| - 3..] == ".js")
  {
    var ext := Extension(filename);
    if ext == ".php" {
      assert |ext| == 4;
    } else if ext == ".js" {
      assert |ext| == 3;
    }
  }

  /** A file named `base` + `ext`, where `base` ends in a character other than a dot or a slash
      and `ext` is a dot followed by neither dots nor slashes, has extension `ext`. */
  lemma ExtensionOfName(base: string, ext: string)
    requires base != [] && base[|base| - 1] != '.' && base[|base| - 1] != '/'
    requires ext != [] && ext[0] == '.' && '.' !in ext[1..] && '/' !in ext
    ensures Extension(base + ext) == ext
  {
    var p := base + ext;
    var n := |base|;
    assert p[n] == '.';
    assert forall j :: n < j < |p| ==> p[j] == ext[1..][j - n - 1];
    var sep := RFind(p, '/');
    var dot := RFind(p, '.');
    assert dot == n;
    assert sep < n - 1 || sep == -1 by {
      assert p[n - 1] == base[n - 1];
    }
    assert sep + 1 <= n - 1 < dot && p[n - 1] != '.';
    assert p[dot..] == ext;
  }

  /** A changed or added PHP or JavaScript source is selected. */
  lemma SourcesSelected(status: string, base: string)
    requires status != "removed"
    requires base != [] && base[|base| - 1] != '.' && base[|base| - 1] != '/'
    ensures Selected(status, base + ".php") && Selected(status, base + ".js")
  {
    ExtensionOfName(base, ".php");
    ExtensionOfName(base, ".js");
  }

  /** A file whose name is a dot followed by neither dots nor slashes has no extension. */
  lemma DotFileHasNoExtension(dir: string, name: string)
    requires name != [] && name[0] == '.' && '.' !in name[1..] && '/' !in name
    requires dir == [] || dir[|dir| - 1] == '/'
    ensures Extension(dir + name) == ""
  {
    var p := dir + name;
    var n := |dir|;
    assert forall j :: n <= j < |p| ==> p[j] == name[j - n];
    assert forall j :: n < j < |p| ==> p[j] == name[1..][j - n - 1];
    assert RFind(p, '.') == n by {
      assert p[n] == '.';
    }
    assert RFind(p, '/') >= n - 1 by {
      if n > 0 { assert p[n - 1] == '/'; }
    }
  }

  /** A dot file such as `.js` or `lib/.php` has no extension, so it is not selected. */
  lemma DotFileNotSelected(status: string, dir: string)
    requires dir == [] || dir[|dir| - 1] == '/'
    ensures !Selected(status, dir + ".js") && !Selected(status, dir + ".php")
  {
    DotFileHasNoExtension(dir, ".js");
    DotFileHasNoExtension(dir, ".php");
  }
}
