/**
 * The parts of Go's `path` package that util.go and main.go use (`Dir`,
 * `Base`, `Ext`), for slash-separated paths that are already clean: `/`,
 * `.`, or non-empty elements joined by single slashes, with an optional
 * leading slash and no `.` or `..` element. `path.Clean` leaves such a path
 * unchanged, and `Dir` of such a path is again clean.
 */
module PathSyntax {

  /** The index of the last '/' in `p`, or -1. */
  function LastSlash(p: string): (k: int)
    ensures -1 <= k < |p|
    ensures k >= 0 ==> p[k] == '/'
    ensures forall i :: k < i < |p| ==> p[i] != '/'
  {
    if p == [] then -1
    else if p[|p| - 1] == '/' then |p| - 1
    else LastSlash(p[..|p| - 1])
  }

  /** The pieces of `q` between slashes, left to right (one piece when there is no slash). */
  function Split(q: string): (ts: seq<string>)
    ensures |ts| > 0
  {
    var k := LastSlash(q);
    if k < 0 then [q] else Split(q[..k]) + [q[k + 1..]]
  }

  /** Pieces separated by single slashes: the inverse of Split. */
  function Join(ts: seq<string>): string
  {
    if |ts| == 0 then ""
    else if |ts| == 1 then ts[0]
    else Join(ts[..|ts| - 1]) + "/" + ts[|ts| - 1]
  }

  /** One path element of a clean path. */
  predicate IsElement(e: string)
  {
    e != [] && e != "." && e != ".." && forall i :: 0 <= i < |e| ==> e[i] != '/'
  }

  /** Elements joined by single slashes, with no leading or trailing slash. */
  predicate IsRelClean(q: string)
  {
    forall i :: 0 <= i < |Split(q)| ==> IsElement(Split(q)[i])
  }

  predicate IsClean(p: string)
  {
    p == "/" || p == "." || IsRelClean(p) || (|p| > 1 && p[0] == '/' && IsRelClean(p[1..]))
  }

  predicate IsAbsClean(p: string)
  {
    IsClean(p) && |p| > 0 && p[0] == '/'
  }

  /**
   * Go's `path.Dir`, which on a clean path is everything before the last
   * slash: "." when there is none, "/" when it is the root.
   */
  function Dir(p: string): (r: string)
    ensures LastSlash(p) < 0 ==> r == "."
    ensures LastSlash(p) == 0 ==> r == "/"
    ensures LastSlash(p) > 0 ==> r == p[..LastSlash(p)]
    ensures r == "/" || r == "." || (0 < |r| < |p| && r == p[..|r|] && p[|r|] == '/')
  {
    var k := LastSlash(p);
    if k < 0 then "." else if k == 0 then "/" else p[..k]
  }

  /** Go's `path.Base`, which on a clean path other than "/" is its last element. */
  function Base(p: string): (r: string)
    ensures p != "/" ==> |r| <= |p| && r == p[|p| - |r|..] && '/' !in r
    ensures p != "/" && LastSlash(p) >= 0 ==> |r| < |p| && p[|p| - |r| - 1] == '/'
    ensures p != "/" ==> r == p[LastSlash(p) + 1..]
  {
    if p == "/" then "/" else p[LastSlash(p) + 1..]
  }

  /** `d` with a '/' appended unless it already ends in one. */
  function WithSlash(d: string): (r: string)
    ensures |r| > 0 && r[|r| - 1] == '/'
    ensures |d| <= |r| <= |d| + 1 && r[..|d|] == d
    ensures r == d <==> |d| > 0 && d[|d| - 1] == '/'
  {
    if |d| > 0 && d[|d| - 1] == '/' then d else d + "/"
  }

  /** The clean path seen without its root: "/" and "." become "", "/x" becomes "x". */
  function Rel(p: string): string
    requires IsClean(p)
  {
    if p == "/" || p == "." then "" else if |p| > 0 && p[0] == '/' then p[1..] else p
  }

  /** The element list of a clean path, root first. */
  function Tokens(p: string): seq<string>
    requires IsClean(p)
  {
    if p == "/" || p == "." then [] else Split(Rel(p))
  }

  /** Joining the pieces gives the string back. */
  lemma {:induction false} JoinSplit(q: string)
    ensures Join(Split(q)) == q
  {
    var k := LastSlash(q);
    if k >= 0 {
      JoinSplit(q[..k]);
      assert q == q[..k] + "/" + q[k + 1..];
    }
  }

  /** Splitting slash-free pieces joined by slashes gives the pieces back. */
  lemma {:induction false} SplitJoin(ts: seq<string>)
    requires |ts| > 0 && forall i :: 0 <= i < |ts| ==> '/' !in ts[i]
    ensures Split(Join(ts)) == ts
  {
    if |ts| == 1 {
      assert LastSlash(ts[0]) == -1;
    } else {
      var init, last := ts[..|ts| - 1], ts[|ts| - 1];
      var j := Join(init) + "/" + last;
      LastSlashBeforePiece(Join(init), last);
      assert j[..|Join(init)|] == Join(init);
      assert j[|Join(init)| + 1..] == last;
      SplitJoin(init);
    }
  }

  lemma {:induction false} LastSlashBeforePiece(a: string, b: string)
    requires '/' !in b
    ensures LastSlash(a + "/" + b) == |a|
  {
    if b != [] {
      assert (a + "/" + b)[..|a| + |b|] == a + "/" + b[..|b| - 1];
      LastSlashBeforePiece(a, b[..|b| - 1]);
    }
  }

  /** The first piece of `q` is a prefix of it. */
  lemma {:induction false} FirstPiece(q: string)
    ensures |Split(q)[0]| <= |q| && q[..|Split(q)[0]|] == Split(q)[0]
  {
    var k := LastSlash(q);
    if k >= 0 {
      FirstPiece(q[..k]);
      assert Split(q)[0] == Split(q[..k])[0];
    }
  }

  lemma RelCleanHasNoRoot(q: string)
    requires IsRelClean(q)
    ensures q != [] && q[0] != '/' && q != "." && q != "/"
  {
    FirstPiece(q);
    var e := Split(q)[0];
    assert IsElement(e);
    assert q[0] == e[0];
  }

  lemma LastSlashAfterRoot(q: string)
    ensures LastSlash("/" + q) == if LastSlash(q) >= 0 then LastSlash(q) + 1 else 0
  {
    if q != [] && q[|q| - 1] != '/' {
      assert ("/" + q)[..|q|] == "/" + q[..|q| - 1];
      LastSlashAfterRoot(q[..|q| - 1]);
    }
  }

  /** A relative clean path with a slash: its part before the last slash is again clean. */
  lemma RelCleanInit(q: string)
    requires IsRelClean(q) && LastSlash(q) >= 0
    ensures IsRelClean(q[..LastSlash(q)]) && LastSlash(q) > 0
    ensures IsElement(q[LastSlash(q) + 1..])
  {
    var k := LastSlash(q);
    var ts := Split(q);
    assert ts == Split(q[..k]) + [q[k + 1..]];
    assert forall i :: 0 <= i < |Split(q[..k])| ==> Split(q[..k])[i] == ts[i];
    assert ts[|ts| - 1] == q[k + 1..];
    RelCleanHasNoRoot(q[..k]);
  }

  /**
   * Above the root, Base is an element, Dir is clean, keeps the root (or
   * the lack of one), and has exactly one token fewer: the last one is Base.
   */
  lemma DirBase(p: string)
    requires IsClean(p) && p != "/" && p != "."
    ensures IsElement(Base(p))
    ensures IsClean(Dir(p))
    ensures p[0] == '/' <==> Dir(p)[0] == '/'
    ensures Tokens(p) == Tokens(Dir(p)) + [Base(p)]
    ensures Dir(p) == "." ==> p == Base(p)
    ensures Dir(p) == "/" ==> p == "/" + Base(p)
    ensures Dir(p) != "/" && Dir(p) != "." ==> p == Dir(p) + "/" + Base(p)
  {
    if IsRelClean(p) {
      DirBaseRelative(p);
    } else {
      DirBaseAbsolute(p);
    }
  }

  lemma DirBaseRelative(p: string)
    requires IsRelClean(p)
    ensures p != [] && p != "/" && p != "." && p[0] != '/'
    ensures IsElement(Base(p))
    ensures Dir(p) == "." || (IsRelClean(Dir(p)) && p == Dir(p) + "/" + Base(p))
    ensures Dir(p) == "." ==> p == Base(p)
    ensures Split(p) == Tokens(Dir(p)) + [Base(p)]
  {
    RelCleanHasNoRoot(p);
    if LastSlash(p) >= 0 {
      DirBaseNested(p);
    } else {
      DirBaseSingle(p);
    }
  }

  lemma DirBaseNested(p: string)
    requires IsRelClean(p) && LastSlash(p) >= 0
    ensures IsElement(Base(p))
    ensures IsRelClean(Dir(p)) && p == Dir(p) + "/" + Base(p)
    ensures Split(p) == Tokens(Dir(p)) + [Base(p)]
  {
    RelCleanHasNoRoot(p);
    var k := LastSlash(p);
    RelCleanInit(p);
    RelCleanHasNoRoot(p[..k]);
    assert Dir(p) == p[..k];
  }

  lemma DirBaseSingle(p: string)
    requires IsRelClean(p) && LastSlash(p) < 0
    ensures IsElement(Base(p))
    ensures Dir(p) == "." && p == Base(p)
    ensures Split(p) == [Base(p)]
  {
    RelCleanHasNoRoot(p);
    assert p == p[0..];
    assert Split(p) == [p];
    assert IsElement(Split(p)[0]);
  }

  lemma DirBaseAbsolute(p: string)
    requires |p| > 1 && p[0] == '/' && IsRelClean(p[1..])
    ensures IsElement(Base(p))
    ensures Dir(p) == "/" || (IsAbsClean(Dir(p)) && Dir(p) != "/" && p == Dir(p) + "/" + Base(p))
    ensures Dir(p) == "/" ==> p == "/" + Base(p)
    ensures Split(p[1..]) == Tokens(Dir(p)) + [Base(p)]
  {
    var k := LastSlash(p);
    var q := p[1..];
    assert p == "/" + q;
    LastSlashAfterRoot(q);
    RelCleanHasNoRoot(q);
    var kq := LastSlash(q);
    assert p[k + 1..] == q[kq + 1..];
    if kq >= 0 {
      RelCleanInit(q);
      assert p[..k] == "/" + q[..kq];
      assert p[..k][1..] == q[..kq];
    } else {
      assert q == q[kq + 1..];
      assert Split(q) == [q];
      assert IsElement(Split(q)[0]);
    }
  }

  /** "/" and "." are the only clean paths whose Base is "/" or ".". */
  lemma BaseAtRoot(p: string)
    requires IsClean(p)
    ensures Base(p) == "/" || Base(p) == "." <==> p == "/" || p == "."
  {
    if p != "/" && p != "." {
      DirBase(p);
    }
  }

  /** A clean path other than "/" does not end in a slash. */
  lemma NoTrailingSlash(p: string)
    requires IsClean(p) && p != "/"
    ensures |p| > 0 && p[|p| - 1] != '/'
  {
    if p != "." {
      DirBase(p);
      var b := Base(p);
      assert p[|p| - 1] == b[|b| - 1];
    }
  }

  /** Two absolute clean paths with the same tokens are the same path. */
  lemma TokensInjective(d: string, g: string)
    requires IsAbsClean(d) && IsAbsClean(g)
    ensures Tokens(d) == Tokens(g) <==> d == g
  {
    if Tokens(d) == Tokens(g) {
      JoinTokens(d);
      JoinTokens(g);
      if d != "/" {
        RelNonEmpty(d);
        assert d == "/" + Rel(d);
      }
      if g != "/" {
        RelNonEmpty(g);
        assert g == "/" + Rel(g);
      }
    }
  }

  lemma RelNonEmpty(p: string)
    requires IsClean(p) && p != "/" && p != "."
    ensures Rel(p) != []
  {
    if IsRelClean(p) {
      RelCleanHasNoRoot(p);
    } else {
      RelCleanHasNoRoot(p[1..]);
    }
  }

  /** The tokens, joined by slashes, give back the path without its root. */
  lemma JoinTokens(p: string)
    requires IsClean(p)
    ensures Join(Tokens(p)) == Rel(p)
  {
    if p != "/" && p != "." {
      JoinSplit(Rel(p));
    }
  }

  /**
   * Go's `path.Ext`: the suffix of the last element that starts at its
   * final '.', or "" when that element has no '.'.
   */
  function Ext(p: string): (r: string)
    ensures |r| <= |p| && r == p[|p| - |r|..]
    ensures r == [] || (r[0] == '.' && forall i :: 0 < i < |r| ==> r[i] != '.' && r[i] != '/')
    ensures r == [] ==> forall i :: LastSlash(p) < i < |p| ==> p[i] != '.'
  {
    ExtScan(p, |p|)
  }

  /** The scan of `path.Ext`, from position `n` down, over a tail holding no '.' or '/'. */
  function ExtScan(p: string, n: nat): (r: string)
    requires n <= |p|
    requires forall i :: n <= i < |p| ==> p[i] != '.' && p[i] != '/'
    ensures r != [] ==> |r| <= |p| && r == p[|p| - |r|..] && r[0] == '.'
    ensures r != [] ==> forall i :: 0 < i < |r| ==> r[i] != '.' && r[i] != '/'
    ensures r == [] ==> forall i :: LastSlash(p) < i < |p| ==> p[i] != '.'
    decreases n
  {
    if n == 0 then []
    else if p[n - 1] == '/' then []
    else if p[n - 1] == '.' then p[n - 1..]
    else ExtScan(p, n - 1)
  }
}
