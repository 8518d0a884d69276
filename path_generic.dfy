/** _path/generic.cpp: splitting a path into root and extension, for any
    choice of separator, alternative separator and extension separator. */
module PathGeneric {
  import opened StdString

  /** The position of the last separator of p: the later of the last sep and,
      unless alt_sep is '\0', the last alt_sep; -1 when there is none. */
  function LastSeparator(p: string, sep: char, altSep: char): (r: int)
    ensures -1 <= r < |p|
    ensures r >= 0 ==> p[r] == sep || (altSep != '\0' && p[r] == altSep)
    ensures forall j :: r < j < |p| ==> p[j] != sep && (altSep == '\0' || p[j] != altSep)
  {
    var i := RFind(p, sep);
    if altSep == '\0' then i
    else
      var a := RFind(p, altSep);
      if a > i then a else i
  }

  /** p has an extension: its last ext_sep lies after the last separator, and
      the file name before that ext_sep is not made of ext_sep alone. */
  predicate HasExtension(p: string, sep: char, altSep: char, extSep: char) {
    var s := LastSeparator(p, sep, altSep);
    var d := RFind(p, extSep);
    d > s && exists k :: s < k < d && p[k] != extSep
  }

  /** _split_text: root_out and ext_out, written through out-parameters. The
      extension, when there is one, runs from the last ext_sep to the end and
      holds no separator and no other ext_sep. */
  method SplitText(fullPath: string, sep: char, altSep: char, extSep: char) returns (root: string, ext: string)
    ensures root + ext == fullPath
    ensures ext != [] <==> HasExtension(fullPath, sep, altSep, extSep)
    ensures ext != [] ==> root == fullPath[..RFind(fullPath, extSep)]
    ensures ext != [] ==> ext[0] == extSep && extSep !in ext[1..]
    ensures ext != [] ==> sep !in ext && (altSep == '\0' || altSep !in ext)
  {
    root := fullPath;
    ext := "";
    var sepIdx := RFind(fullPath, sep);
    if altSep != '\0' {
      var altSepIdx := RFind(fullPath, altSep);
      sepIdx := if altSepIdx > sepIdx then altSepIdx else sepIdx;
    }
    var dotIdx := RFind(fullPath, extSep);
    if dotIdx > sepIdx {
      // skip the leading ext_sep characters of the file name
      var fileNameIdx := sepIdx + 1;
      while fileNameIdx < dotIdx
        invariant sepIdx + 1 <= fileNameIdx <= dotIdx
        invariant root == fullPath && ext == []
        invariant forall k :: sepIdx < k < fileNameIdx ==> fullPath[k] == extSep
      {
        if fullPath[fileNameIdx] != extSep {
          root := fullPath[..dotIdx];
          ext := fullPath[dotIdx..];
          assert root + ext == fullPath;
          break;
        }
        fileNameIdx := fileNameIdx + 1;
      }
    }
  }

  /** A file name made of ext_sep characters followed by a stem without
      ext_sep ("/home/.bashrc") has no extension. */
  lemma LeadingDotsOnly(dir: string, dots: string, stem: string)
    requires forall i :: 0 <= i < |dots| ==> dots[i] == '.'
    requires '.' !in stem && '/' !in stem && '/' !in dots
    ensures !HasExtension(dir + "/" + dots + stem, '/', '\0', '.')
  {
    var p := dir + "/" + dots + stem;
    var s := LastSeparator(p, '/', '\0');
    var d := RFind(p, '.');
    assert p[|dir|] == '/';
    forall j | |dir| + |dots| < j < |p| ensures p[j] != '/' && p[j] != '.' {
      assert p[j] == stem[j - |dir| - |dots| - 1];
    }
    forall j | |dir| < j <= |dir| + |dots| ensures p[j] == '.' {
      assert p[j] == dots[j - |dir| - 1];
    }
    assert s == |dir|;
    if d > s {
      forall k | s < k < d ensures p[k] == '.' {
        assert p[k] == dots[k - |dir| - 1];
      }
    }
  }

  /** A stem that does not start with ext_sep followed by ".ext" has the
      extension ".ext" ("/tmp/archive.tar.gz" has ".gz"). */
  lemma StemAndExtension(dir: string, stem: string, ext: string)
    requires stem != [] && stem[0] != '.'
    requires '/' !in stem && '/' !in ext && '.' !in ext
    ensures HasExtension(dir + "/" + stem + "." + ext, '/', '\0', '.')
    ensures RFind(dir + "/" + stem + "." + ext, '.') == |dir| + 1 + |stem|
  {
    var p := dir + "/" + stem + "." + ext;
    StemAndExtensionChars(dir, stem, ext);
    RFindAt(p, '.', |dir| + 1 + |stem|);
    RFindAt(p, '/', |dir|);
  }

  /** Where the separators and dots of dir + "/" + stem + "." + ext are. */
  lemma StemAndExtensionChars(dir: string, stem: string, ext: string)
    requires stem != [] && stem[0] != '.'
    requires '/' !in stem && '/' !in ext && '.' !in ext
    ensures var p := dir + "/" + stem + "." + ext;
      p[|dir|] == '/' && p[|dir| + 1] == stem[0] && p[|dir| + 1 + |stem|] == '.' &&
      (forall j :: |dir| + 1 + |stem| < j < |p| ==> p[j] != '.') &&
      (forall j :: |dir| < j < |p| ==> p[j] != '/')
  {
    var head := dir + "/" + stem;
    var p := head + "." + ext;
    var dot := |head|;
    forall j | dot < j < |p| ensures p[j] != '.' && p[j] != '/' {
      assert j - dot - 1 < |ext|;
      assert p[j] == ext[j - dot - 1];
    }
    forall j | |dir| < j < dot ensures p[j] != '/' {
      assert 0 <= j - |dir| - 1 < |stem|;
      assert p[j] == head[j] == stem[j - |dir| - 1];
    }
  }
}
