/**
 * util.go: tokenising a path into its elements, the directory-descent test
 * built on it, splitting a file name at its extension, the element-wise
 * list comparison, the in-place reversal, and the string part of Subpath.
 */
module Util {
  import opened Wrappers
  import opened Search
  import opened PathSyntax

  /** `s` back to front. */
  function Reversed<T>(s: seq<T>): seq<T>
  {
    if s == [] then [] else Reversed(s[1..]) + [s[0]]
  }

  lemma {:induction false} ReversedAt<T>(s: seq<T>, k: int)
    requires 0 <= k < |s|
    ensures |Reversed(s)| == |s| && Reversed(s)[k] == s[|s| - 1 - k]
  {
    if k < |s| - 1 {
      ReversedAt(s[1..], k);
    } else {
      ReversedLength(s[1..]);
    }
  }

  lemma {:induction false} ReversedLength<T>(s: seq<T>)
    ensures |Reversed(s)| == |s|
  {
    if s != [] {
      ReversedLength(s[1..]);
    }
  }

  /** Appending at the back puts the element at the front of the reversal. */
  lemma {:induction false} ReversedSnoc<T>(s: seq<T>, x: T)
    ensures Reversed(s + [x]) == [x] + Reversed(s)
  {
    if s != [] {
      assert (s + [x])[1..] == s[1..] + [x];
      ReversedSnoc(s[1..], x);
    }
  }

  /** Reversing twice restores the original. */
  lemma {:induction false} ReversedTwice<T>(s: seq<T>)
    ensures Reversed(Reversed(s)) == s
  {
    if s != [] {
      ReversedTwice(s[1..]);
      ReversedSnoc(Reversed(s[1..]), s[0]);
    }
  }

  /** `reverse`: swaps a[i] and a[j] while i < j, moving both ends inwards. */
  method Reverse(a: array<string>)
    modifies a
    ensures a[..] == Reversed(old(a[..]))
  {
    var n := a.Length;
    var i, j := 0, n - 1;
    while i < j
      invariant 0 <= i <= j + 1 <= n && i + j == n - 1
      invariant forall k :: 0 <= k < i ==> a[k] == old(a[n - 1 - k]) && a[n - 1 - k] == old(a[k])
      invariant forall k :: i <= k <= j ==> a[k] == old(a[k])
    {
      a[i], a[j] := a[j], a[i];
      i, j := i + 1, j - 1;
    }
    ghost var was := old(a[..]);
    ReversedLength(was);
    forall k | 0 <= k < n
      ensures a[..][k] == Reversed(was)[k]
    {
      ReversedAt(was, k);
    }
  }

  /**
   * `TokenizePath`: strips the last element off the path until only "/" or
   * "." is left, collecting the elements leaf first, then reverses them.
   */
  method TokenizePath(s: string) returns (toks: seq<string>)
    requires IsClean(s)
    ensures toks == Tokens(s)
    ensures Join(toks) == Rel(s)
    ensures forall i :: 0 <= i < |toks| ==> IsElement(toks[i])
  {
    var p := s;
    var a: seq<string> := [];
    while true
      invariant IsClean(p)
      invariant Tokens(s) == Tokens(p) + Reversed(a)
      decreases |Tokens(p)|
    {
      var l, r := Dir(p), Base(p);
      TokenizeTurn(s, p, a);
      if r == "." || r == "/" {
        break;
      }
      a := a + [r];
      p := l;
    }
    toks := ReverseCopy(a);
    JoinTokens(s);
    TokensAreElements(s);
  }

  /** `reverse(a)` on the collected slice: the elements copied into an array and reversed there. */
  method ReverseCopy(a: seq<string>) returns (r: seq<string>)
    ensures r == Reversed(a)
  {
    var arr := new string[|a|](i requires 0 <= i < |a| => a[i]);
    assert arr[..] == a;
    Reverse(arr);
    r := arr[..];
  }

  /**
   * One turn of TokenizePath's loop: at "/" or "." every element has been
   * collected; otherwise the turn keeps the invariant and shortens the
   * token list.
   */
  lemma TokenizeTurn(s: string, p: string, a: seq<string>)
    requires IsClean(s) && IsClean(p) && Tokens(s) == Tokens(p) + Reversed(a)
    ensures Base(p) == "." || Base(p) == "/" ==> Tokens(s) == Reversed(a)
    ensures Base(p) != "." && Base(p) != "/" ==>
      IsClean(Dir(p)) && Tokens(s) == Tokens(Dir(p)) + Reversed(a + [Base(p)])
      && |Tokens(Dir(p))| < |Tokens(p)|
  {
    BaseAtRoot(p);
    if p == "." || p == "/" {
      assert Tokens(p) + Reversed(a) == Reversed(a);
    } else {
      TokenizeStep(s, p, a);
    }
  }

  /** One turn of TokenizePath's loop keeps its invariant and shortens the token list. */
  lemma TokenizeStep(s: string, p: string, a: seq<string>)
    requires IsClean(s) && IsClean(p) && Tokens(s) == Tokens(p) + Reversed(a)
    requires p != "." && p != "/"
    ensures IsClean(Dir(p))
    ensures Tokens(s) == Tokens(Dir(p)) + Reversed(a + [Base(p)])
    ensures |Tokens(Dir(p))| < |Tokens(p)|
  {
    DirBase(p);
    var x, b := Tokens(Dir(p)), Base(p);
    ReversedSnoc(a, b);
    SnocAssoc(x, b, Reversed(a));
  }

  lemma SnocAssoc<T>(x: seq<T>, b: T, r: seq<T>)
    ensures (x + [b]) + r == x + ([b] + r)
  {
  }

  /** No token of a clean path is "", ".", ".." or "/". */
  lemma TokensAreElements(p: string)
    requires IsClean(p)
    ensures forall i :: 0 <= i < |Tokens(p)| ==> IsElement(Tokens(p)[i])
  {
    if IsRelClean(p) {
      RelCleanHasNoRoot(p);
    }
  }

  /** `equal`: the lists have the same length and agree at every position. */
  method Equal(a: seq<string>, b: seq<string>) returns (r: bool)
    ensures r <==> |a| == |b| && forall i :: 0 <= i < |a| ==> a[i] == b[i]
    ensures r <==> a == b
  {
    if |a| != |b| {
      return false;
    }
    for i := 0 to |a|
      invariant forall k :: 0 <= k < i ==> a[k] == b[k]
    {
      if a[i] != b[i] {
        return false;
      }
    }
    return true;
  }

  /**
   * `ShouldDescend`: the directory's element list is a strict prefix of the
   * page file's element list.
   */
  method ShouldDescend(dir: string, pageFile: string) returns (r: bool)
    requires IsClean(dir) && IsClean(pageFile)
    ensures r <==> IsProperPrefix(Tokens(dir), Tokens(pageFile))
    ensures Tokens(dir) == Tokens(pageFile) ==> !r
  {
    var d := TokenizePath(dir);
    var pf := TokenizePath(pageFile);
    if |d| >= |pf| {
      return false;
    }
    var same := Equal(pf[..|d|], d);
    if same {
      return true;
    }
    return false;
  }

  /** `SplitAtExtension`: the name before its extension, and the extension. */
  function SplitAtExtension(file: string): (r: (string, string))
    ensures r.0 + r.1 == file
    ensures r.1 == Ext(file)
    ensures r.1 == [] || (r.1[0] == '.' && '/' !in r.1)
  {
    var dotPos := |file| - |Ext(file)|;
    (file[..dotPos], file[dotPos..])
  }

  /** `StripExtension`: the name without its extension. */
  function StripExtension(file: string): (r: string)
    ensures r == SplitAtExtension(file).0
    ensures r + Ext(file) == file
  {
    var (base, _) := SplitAtExtension(file);
    base
  }

  /** What Subpath yields for absolute `rootDir` and `file`. */
  datatype SubpathResult =
    | Relative(path: string)  // the file relative to the directory
    | NotUnder                // "" is returned and a problem is reported
    | OutOfRange              // f[len(d)+1:] is out of range: a run-time panic

  /**
   * `Subpath` on the results of `filepath.Abs`, which are absolute and
   * clean: the file with the directory and the one character after it
   * removed, when the directory is a string prefix of the file.
   */
  function Subpath(d: string, f: string): (r: SubpathResult)
    requires IsAbsClean(d) && IsAbsClean(f)
    ensures r.NotUnder? <==> !(|d| <= |f| && f[..|d|] == d)
    ensures r.OutOfRange? <==> f == d
    ensures r.Relative? ==> |d| < |f| && f == d + [f[|d|]] + r.path
  {
    if IndexOf(f, d) != 0 then NotUnder
    else if |d| + 1 > |f| then OutOfRange
    else Relative(f[|d| + 1..])
  }

  /**
   * Subpath tests a string prefix, not a directory prefix: a sibling whose
   * name extends the directory's is accepted, and under "/" the first
   * character of the name is dropped.
   */
  lemma SubpathAcceptsSibling()
    ensures IsAbsClean("/a/b") && IsAbsClean("/a/bc/x") && Subpath("/a/b", "/a/bc/x") == Relative("/x")
    ensures SubpathUnder("/a/b", "/a/bc/x") == None
    ensures IsAbsClean("/") && IsAbsClean("/x") && Subpath("/", "/x") == Relative("")
    ensures SubpathUnder("/", "/x") == Some("x")
  {
    SamplesAreClean();
    assert OccursAt("/a/bc/x", "/a/b", 0);
    assert OccursAt("/x", "/", 0);
  }

  /** The paths of SubpathAcceptsSibling are absolute and clean. */
  lemma SamplesAreClean()
    ensures IsAbsClean("/") && IsAbsClean("/x") && IsAbsClean("/a/b") && IsAbsClean("/a/bc/x")
  {
    OnePiece("x");
    TwoPieces();
    ThreePieces();
    assert "/x"[1..] == "x" && "/a/b"[1..] == "a/b" && "/a/bc/x"[1..] == "a/bc/x";
  }

  lemma OnePiece(e: string)
    requires IsElement(e)
    ensures Split(e) == [e] && IsRelClean(e)
  {
  }

  lemma TwoPieces()
    ensures Split("a/b") == ["a", "b"] && IsRelClean("a/b")
  {
    assert LastSlash("a/") == 1;
    assert LastSlash("a/b") == 1;
    assert "a/b"[..1] == "a" && "a/b"[2..] == "b";
    OnePiece("a");
  }

  lemma ThreePieces()
    ensures Split("a/bc/x") == ["a", "bc", "x"] && IsRelClean("a/bc/x")
  {
    assert LastSlash("a/bc/") == 4;
    assert LastSlash("a/bc/x") == 4;
    assert "a/bc/x"[..4] == "a/bc" && "a/bc/x"[5..] == "x";
    assert LastSlash("a/") == 1;
    assert LastSlash("a/b") == 1;
    assert LastSlash("a/bc") == 1;
    assert "a/bc"[..1] == "a" && "a/bc"[2..] == "bc";
    OnePiece("a");
    assert Split("a/bc") == ["a", "bc"];
  }

  /** Subpath as intended: the file below the directory, past the separating slash. */
  function SubpathUnder(d: string, f: string): (r: Option<string>)
    ensures r.Some? <==> IsProperPrefix(WithSlash(d), f)
    ensures r.Some? ==> WithSlash(d) + r.value == f && r.value != ""
  {
    var prefix := WithSlash(d);
    if IsProperPrefix(prefix, f) then Some(f[|prefix|..]) else None
  }

  /**
   * For absolute clean paths, the corrected Subpath accepts exactly the
   * files that ShouldDescend descends into.
   */
  lemma {:induction false} DescendIffUnder(d: string, f: string)
    requires IsAbsClean(d) && IsAbsClean(f)
    ensures IsProperPrefix(Tokens(d), Tokens(f)) <==> SubpathUnder(d, f).Some?
    decreases |Tokens(f)|
  {
    if f != "/" {
      DirBase(f);
      var g, b := Dir(f), Base(f);
      assert IsAbsClean(g);
      if g != "/" {
        NoTrailingSlash(g);
      }
      assert f == WithSlash(g) + b;
      DescendIffUnder(d, g);
      PrefixSnoc(Tokens(d), Tokens(g), b);
      TokensInjective(d, g);
      UnderStep(d, g, b, f);
    }
  }

  /** A strict prefix of y + [b] is y itself or a strict prefix of y. */
  lemma PrefixSnoc<T>(x: seq<T>, y: seq<T>, b: T)
    ensures IsProperPrefix(x, y + [b]) <==> x == y || IsProperPrefix(x, y)
  {
    if IsProperPrefix(x, y + [b]) && |x| < |y| {
      assert (y + [b])[..|x|] == y[..|x|];
    }
    if IsProperPrefix(x, y) {
      assert (y + [b])[..|x|] == y[..|x|];
    }
  }

  /**
   * Below the file's parent directory g: f lies under d exactly when g is
   * d or g lies under d.
   */
  lemma UnderStep(d: string, g: string, b: string, f: string)
    requires IsAbsClean(d) && IsAbsClean(g) && IsElement(b) && f == WithSlash(g) + b
    ensures IsProperPrefix(WithSlash(d), f) <==> d == g || IsProperPrefix(WithSlash(d), g)
  {
    var p, w := WithSlash(d), WithSlash(g);
    if d != "/" {
      NoTrailingSlash(d);
    }
    if g != "/" {
      NoTrailingSlash(g);
    }
    if IsProperPrefix(p, g) {
      assert f[..|p|] == g[..|p|];
    }
    if IsProperPrefix(p, f) {
      assert f[|p| - 1] == '/';
      assert |p| <= |w|;
      assert p == w[..|p|] by {
        assert f[..|w|] == w;
      }
      if |p| == |w| {
        assert p == w;
      } else {
        assert g != "/";
        assert |p| < |g|;
        assert g[..|p|] == w[..|p|];
      }
    }
  }
}
