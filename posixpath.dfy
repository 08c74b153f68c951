/**
 * `os.path.splitext` on POSIX: the extension is the text from the last dot of
 * the final path component, provided that dot is preceded in the component by
 * some character other than a dot (so ".bashrc" and "..." have no extension).
 */
module PosixPath {

  import opened PyStrings

  /**
   * The loop of `genericpath._splitext` that skips the leading dots of the
   * file name: does some character of `p[i..dot]` differ from '.'?
   */
  function SkipsToNonDot(p: string, i: nat, dot: nat): (found: bool)
    requires i <= dot <= |p|
    ensures found <==> exists k :: i <= k < dot && p[k] != '.'
    decreases dot - i
  {
    if i == dot then false
    else if p[i] != '.' then true
    else SkipsToNonDot(p, i + 1, dot)
  }

  datatype Split = Split(root: string, ext: string)

  /** `os.path.splitext(p)`, with '/' as separator and no alternative separator. */
  function SplitExt(p: string): (r: Split)
    ensures r.root + r.ext == p
    ensures r.ext != [] ==> r.ext[0] == '.'
    ensures forall j :: 1 <= j < |r.ext| ==> r.ext[j] != '.'
    ensures forall j :: 0 <= j < |r.ext| ==> r.ext[j] != '/'
  {
    var sep := RFind(p, '/');
    var dot := RFind(p, '.');
    if dot > sep && SkipsToNonDot(p, sep + 1, dot) then Split(p[..dot], p[dot..])
    else Split(p, [])
  }

  /**
   * Declaratively: `d` is the last dot of `p`, and `k` is a non-dot character
   * before it in the same path component.
   */
  ghost predicate ExtensionAt(p: string, k: int, d: int)
  {
    && 0 <= k < d < |p|
    && p[k] != '.' && p[d] == '.'
    && (forall j :: k <= j < |p| ==> p[j] != '/')
    && (forall j :: d < j < |p| ==> p[j] != '.')
  }

  ghost predicate HasExtension(p: string)
  {
    exists k, d :: ExtensionAt(p, k, d)
  }

  /** `SplitExt` finds an extension exactly when the declarative condition holds. */
  lemma SplitExtFindsExtension(p: string)
    ensures SplitExt(p).ext != [] <==> HasExtension(p)
  {
    var sep := RFind(p, '/');
    var dot := RFind(p, '.');
    if SplitExt(p).ext != [] {
      var k :| sep + 1 <= k < dot && p[k] != '.';
      assert ExtensionAt(p, k, dot);
    }
    if HasExtension(p) {
      var k, d :| ExtensionAt(p, k, d);
      assert dot == d;
      assert sep < k;
      assert SkipsToNonDot(p, sep + 1, dot);
    }
  }

  /** The last occurrence of a character that lowering neither creates nor removes. */
  lemma RFindLower(s: string, c: char)
    requires !('A' <= c <= 'Z') && !('a' <= c <= 'z')
    ensures RFind(Lower(s), c) == RFind(s, c)
  {
    assert forall n :: 0 <= n < |s| ==> (Lower(s)[n] == c <==> s[n] == c);
  }

  /** Lowering does not change which characters are dots. */
  lemma {:induction false} SkipsToNonDotLower(p: string, i: nat, dot: nat)
    requires i <= dot <= |p|
    ensures SkipsToNonDot(Lower(p), i, dot) == SkipsToNonDot(p, i, dot)
    decreases dot - i
  {
    if i < dot {
      SkipsToNonDotLower(p, i + 1, dot);
    }
  }

  /** Splitting commutes with ASCII lowering, since neither '.' nor '/' is a letter. */
  lemma SplitExtLower(p: string)
    ensures SplitExt(Lower(p)) == Split(Lower(SplitExt(p).root), Lower(SplitExt(p).ext))
  {
    var q := Lower(p);
    RFindLower(p, '/');
    RFindLower(p, '.');
    var sep := RFind(p, '/');
    var dot := RFind(p, '.');
    var cut := dot > sep && SkipsToNonDot(p, sep + 1, dot);
    if dot > sep {
      SkipsToNonDotLower(p, sep + 1, dot);
    }
    assert cut == (RFind(q, '.') > RFind(q, '/') && SkipsToNonDot(q, RFind(q, '/') + 1, RFind(q, '.')));
    if cut {
      assert SplitExt(p) == Split(p[..dot], p[dot..]);
      assert SplitExt(q) == Split(q[..dot], q[dot..]);
      LowerSplitAt(p, dot);
    } else {
      assert SplitExt(p) == Split(p, []);
      assert SplitExt(q) == Split(q, []);
      assert Lower([]) == [];
    }
  }

  /** Lowering the two halves of a split at `dot` gives the halves of the lowered text. */
  lemma LowerSplitAt(p: string, dot: nat)
    requires dot <= |p|
    ensures Lower(p)[..dot] == Lower(p[..dot]) && Lower(p)[dot..] == Lower(p[dot..])
  {
    LowerSlice(p, 0, dot);
    LowerSlice(p, dot, |p|);
    assert p[dot..|p|] == p[dot..] && Lower(p)[dot..|p|] == Lower(p)[dot..] && p[0..dot] == p[..dot];
  }
}
