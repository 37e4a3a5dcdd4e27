/** The POSIX flavour of Python's `os.path.splitext`, `os.path.basename` and
    `os.path.dirname`, which the extension changer calls on the chosen paths.
    The separator is '/', the extension separator '.'. */
module PosixPath {
  import opened Text

  /** `os.path.basename(p)`: the longest suffix of `p` without a '/'. */
  function Basename(p: string): (b: string)
    ensures |b| <= |p| && b == p[|p| - |b|..]
    ensures '/' !in b
    ensures |b| < |p| ==> p[|p| - |b| - 1] == '/'
  {
    p[RFind(p, '/') + 1..]
  }

  /** `os.path.dirname(p)`: everything before the basename, with the trailing
      slashes removed unless the head consists of slashes only (the root). */
  function Dirname(p: string): (d: string)
    ensures |d| + |Basename(p)| <= |p| && d == p[..|d|]
    ensures forall i :: |d| <= i < |p| - |Basename(p)| ==> p[i] == '/'
    ensures d == [] || d[|d| - 1] != '/' || AllChar(d, '/')
    ensures d == [] <==> '/' !in p
    ensures d != [] && AllChar(d, '/') ==> |d| + |Basename(p)| == |p|
  {
    var head := p[..RFind(p, '/') + 1];
    if head != [] && !AllChar(head, '/') then RStrip(head, '/') else head
  }

  /** `os.path.splitext(p)` as (root, ext): `ext` starts at the last '.' of the
      final path component, unless every character of that component before
      the dot is itself a dot (".bashrc", "..." have no extension): the leading
      dots of that component are skipped, and the split happens only when
      something else is found before the last dot. */
  function SplitExt(p: string): (r: (string, string))
    ensures r.0 + r.1 == p
    ensures r.1 == [] || (r.1[0] == '.' && '.' !in r.1[1..] && '/' !in r.1)
  {
    var sep := RFind(p, '/');
    var dot := RFind(p, '.');
    if dot > sep && RunEnd(p, '.', sep + 1) < dot then
      AfterLastDot(p, sep, dot);
      (p[..dot], p[dot..])
    else (p, [])
  }

  /** Skipping the leading dots of `p[from..]` stops before `dot` exactly when
      some character of `p[from..dot]` is not a dot. */
  lemma LeadingDotsBefore(p: string, from: nat, dot: nat)
    requires from <= dot <= |p|
    ensures RunEnd(p, '.', from) < dot <==> !AllChar(p[from..dot], '.')
  {
    var n := RunEnd(p, '.', from);
    if n < dot {
      assert p[from..dot][n - from] == p[n];
    } else {
      forall i | 0 <= i < dot - from ensures p[from..dot][i] == '.' {
        assert p[from..dot][i] == p[from + i];
      }
    }
  }

  /** The text from the last dot on, when that dot follows the last slash,
      holds no other dot and no slash. */
  lemma AfterLastDot(p: string, sep: int, dot: int)
    requires sep == RFind(p, '/') && dot == RFind(p, '.') && sep < dot
    ensures var e := p[dot..]; e[0] == '.' && '.' !in e[1..] && '/' !in e
  {
    var e := p[dot..];
    forall j | 0 <= j < |e| ensures e[j] != '/' && (j > 0 ==> e[j] != '.') {
      assert e[j] == p[dot + j];
    }
    assert forall j :: 0 <= j < |e| - 1 ==> e[1..][j] == e[j + 1];
  }

  /** A file name has an extension in the sense of `splitext` exactly when some
      character other than '.' stands before some '.'. */
  predicate HasDottedSuffix(name: string) {
    exists i, j :: 0 <= i < j < |name| && name[i] != '.' && name[j] == '.'
  }

  /** Some character of `name` is not a dot. */
  predicate HasNonDot(name: string) {
    exists i :: 0 <= i < |name| && name[i] != '.'
  }

  /** Reference reading of `splitext`: its extension is non-empty exactly when the
      basename has a dotted suffix, and it is then the basename's text from its
      last dot on. */
  lemma {:induction false} SplitExtByBasename(p: string)
    ensures var b := Basename(p);
      && (SplitExt(p).1 != [] <==> HasDottedSuffix(b))
      && SplitExt(p).1 == (if HasDottedSuffix(b) then b[RFind(b, '.')..] else [])
      && (HasDottedSuffix(b) ==> SplitExt(p).1[1..] == b[RFind(b, '.') + 1..])
  {
    var sep, dot := RFind(p, '/'), RFind(p, '.');
    var b := Basename(p);
    assert b == p[sep + 1..];
    if dot > sep {
      var db := dot - sep - 1;
      LeadingDotsBefore(p, sep + 1, dot);
      LastDotOfBasename(p, sep, dot);
      DottedSuffixAt(b, db);
      assert b[..db] == p[sep + 1..dot];
      assert b[db..] == p[dot..];
      assert p[dot..][1..] == b[db + 1..];
    } else {
      NoDotInBasename(p, sep, dot);
    }
  }

  /** When the last dot of `p` does not lie after its last slash, the basename
      has no dot and `splitext` finds no extension. */
  lemma NoDotInBasename(p: string, sep: int, dot: int)
    requires sep == RFind(p, '/') && dot == RFind(p, '.') && dot <= sep
    ensures !HasDottedSuffix(p[sep + 1..]) && SplitExt(p).1 == []
  {
    var b := p[sep + 1..];
    forall j | 0 <= j < |b| ensures b[j] != '.' {
      assert b[j] == p[sep + 1 + j];
    }
  }

  /** When the last dot of `p` lies after its last slash, it is the last dot of the basename. */
  lemma LastDotOfBasename(p: string, sep: int, dot: int)
    requires sep == RFind(p, '/') && dot == RFind(p, '.') && dot > sep
    ensures RFind(p[sep + 1..], '.') == dot - sep - 1
  {
    RFindInSuffix(p, '.', sep + 1);
  }

  /** A `c` found at or after `start` is also the last `c` of `p[start..]`. */
  lemma RFindInSuffix(p: string, c: char, start: nat)
    requires start <= |p| && RFind(p, c) >= start
    ensures RFind(p[start..], c) == RFind(p, c) - start
  {
    var b, i := p[start..], RFind(p, c);
    forall j | i - start < j < |b| ensures b[j] != c {
      assert b[j] == p[start + j];
    }
    RFindUnique(b, c, i - start);
  }

  /** With `db` the last dot of `name`, the name has a dotted suffix exactly when
      something other than a dot stands before `db`. */
  lemma DottedSuffixAt(name: string, db: int)
    requires 0 <= db < |name| && name[db] == '.'
    requires forall j :: db < j < |name| ==> name[j] != '.'
    ensures HasDottedSuffix(name) <==> !AllChar(name[..db], '.')
  {
    if HasDottedSuffix(name) {
      var i, j :| 0 <= i < j < |name| && name[i] != '.' && name[j] == '.';
      assert name[..db][i] != '.';
    }
    if !AllChar(name[..db], '.') {
      var i :| 0 <= i < db && name[..db][i] != '.';
      assert name[i] != '.' && name[db] == '.';
    }
  }

  /** A name without a '/' is its own basename. */
  lemma BasenameOfName(name: string)
    requires '/' !in name
    ensures Basename(name) == name
  {
    RFindUnique(name, '/', -1);
  }

  /** The extension depends on the final path component only. */
  lemma SplitExtOfBasename(p: string)
    ensures SplitExt(Basename(p)).1 == SplitExt(p).1
    ensures SplitExt(p).0 == p[..|p| - |Basename(p)|] + SplitExt(Basename(p)).0
  {
    var b := Basename(p);
    SameExtensionAsBasename(p);
    var pre, e := p[..|p| - |b|], SplitExt(p).1;
    assert p == pre + b;
    assert b == SplitExt(b).0 + e;
    DropCommonSuffix(SplitExt(p).0, SplitExt(b).0, pre, e);
  }

  lemma SameExtensionAsBasename(p: string)
    ensures SplitExt(Basename(p)).1 == SplitExt(p).1
  {
    var b := Basename(p);
    BasenameOfName(b);
    SplitExtByBasename(p);
    SplitExtByBasename(b);
  }

  lemma DropCommonSuffix(x: string, y: string, pre: string, e: string)
    requires x + e == pre + (y + e)
    ensures x == pre + y
  {
    assert x == (x + e)[..|x|];
    assert pre + y == (pre + (y + e))[..|pre + y|];
  }

  /** A path without any dot has no extension. */
  lemma NoDotNoExtension(p: string)
    requires '.' !in p
    ensures SplitExt(p) == (p, [])
  {
    RFindUnique(p, '.', -1);
  }

  /** A name whose only dots are leading ones (".bashrc") has no dotted suffix. */
  lemma LeadingDotsOnly(name: string, k: nat)
    requires k <= |name|
    requires AllChar(name[..k], '.') && '.' !in name[k..]
    ensures !HasDottedSuffix(name)
  {
    forall i | 0 <= i < k ensures name[i] == '.' {
      assert name[..k][i] == name[i];
    }
    forall j | k <= j < |name| ensures name[j] != '.' {
      assert name[k..][j - k] == name[j];
    }
  }

  /** The stem `splitext` leaves of a file name is again a file name, and it
      keeps a character other than a dot when the name has one. */
  lemma StemOfName(name: string)
    requires '/' !in name
    ensures var stem := SplitExt(name).0;
      '/' !in stem && Basename(stem) == stem && (HasNonDot(name) ==> HasNonDot(stem))
  {
    var stem := SplitExt(name).0;
    forall j | 0 <= j < |stem| ensures stem[j] == name[j] {
      assert name == stem + SplitExt(name).1;
    }
    BasenameOfName(stem);
    if HasNonDot(name) {
      BasenameOfName(name);
      SplitExtByBasename(name);
      if HasDottedSuffix(name) {
        var i, j :| 0 <= i < j < |name| && name[i] != '.' && name[j] == '.';
        assert j <= RFind(name, '.');
        assert |stem| == RFind(name, '.');
        assert stem[i] != '.';
      } else {
        assert stem == name;
      }
    }
  }

  /** Appending a slash-free text keeps it at the end of the basename. */
  lemma BasenameOfAppend(pre: string, name: string)
    requires '/' !in name
    ensures EndsWith(Basename(pre + name), name)
  {
    var p := pre + name;
    forall j | |pre| <= j < |p| ensures p[j] != '/' {
      assert p[j] == name[j - |pre|];
    }
    var sep := RFind(p, '/');
    assert p[sep + 1..][|p| - sep - 1 - |name|..] == name;
  }

  /** A text that ends with a name holding a character other than a dot holds one too. */
  lemma NonDotSuffix(s: string, name: string)
    requires EndsWith(s, name) && HasNonDot(name)
    ensures HasNonDot(s)
  {
    var i :| 0 <= i < |name| && name[i] != '.';
    assert s[|s| - |name| + i] == name[i];
  }

  /** The `splitext` root of a path whose final component holds a character
      other than a dot still ends in such a component. */
  lemma RootKeepsNonDot(p: string)
    requires HasNonDot(Basename(p))
    ensures HasNonDot(Basename(SplitExt(p).0))
  {
    var b := Basename(p);
    SplitExtOfBasename(p);
    StemOfName(b);
    NonDotAfterAppend(p[..|p| - |b|], SplitExt(b).0);
  }

  /** A slash-free name holding a character other than a dot keeps one in the
      basename of any path it ends. */
  lemma NonDotAfterAppend(pre: string, name: string)
    requires '/' !in name && HasNonDot(name)
    ensures HasNonDot(Basename(pre + name))
  {
    BasenameOfAppend(pre, name);
    NonDotSuffix(Basename(pre + name), name);
  }

  /** The basename of `dir + "/" + name`, for a slash-free name, is that name. */
  lemma BasenameAfterSlash(dir: string, name: string)
    requires '/' !in name
    ensures Basename(dir + "/" + name) == name
  {
    var p := dir + "/" + name;
    forall j | |dir| < j < |p| ensures p[j] != '/' {
      assert p[j] == name[j - |dir| - 1];
    }
    RFindUnique(p, '/', |dir|);
    assert p[|dir| + 1..] == name;
  }

  /** A path whose basename has no dotted suffix is all root: `splitext` finds no extension. */
  lemma NoDottedSuffixNoExtension(p: string)
    requires !HasDottedSuffix(Basename(p))
    ensures SplitExt(p) == (p, [])
  {
    SplitExtByBasename(p);
  }

  /** Appending "." + ext to a root whose basename contains a character other
      than '.' gives a path whose `splitext` is (root, "." + ext). */
  lemma AppendExtension(root: string, ext: string)
    requires HasNonDot(Basename(root))
    requires '.' !in ext && '/' !in ext
    ensures SplitExt(root + "." + ext) == (root, "." + ext)
  {
    var p := root + "." + ext;
    var b := Basename(root);
    var k := |root| - |b|;
    var d := |root|;
    assert p[d] == '.';
    forall j | d < j < |p| ensures p[j] != '.' && p[j] != '/' {
      assert p[j] == ext[j - d - 1];
    }
    RFindUnique(p, '.', d);
    if k > 0 {
      assert p[k - 1] == root[k - 1] == '/';
      forall j | k - 1 < j < |p| ensures p[j] != '/' {
        if j < d { assert p[j] == b[j - k]; }
      }
      RFindUnique(p, '/', k - 1);
    } else {
      forall j | -1 < j < |p| ensures p[j] != '/' {
        if j < d { assert p[j] == b[j]; }
      }
      RFindUnique(p, '/', -1);
    }
    var i :| 0 <= i < |b| && b[i] != '.';
    assert p[k..d][i] == b[i];
    LeadingDotsBefore(p, k, d);
    assert p[..d] == root;
    assert p[d..] == "." + ext;
  }
}
