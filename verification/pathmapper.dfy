/** `str_to_path_buf` (src/main.rs:182-188): a URL suffix becomes a path
    under the mirror directory `ripped` by plain concatenation. */
module PathMapper {
  import opened Wrappers
  import opened Seqs
  import Filters

  const MirrorRoot: string := "ripped"

  /** `ripped` + s for a slash-led suffix, `ripped/` + s otherwise. */
  function PathOf(s: string): (p: string)
    ensures |p| > |MirrorRoot| && p[..|MirrorRoot| + 1] == MirrorRoot + "/"
    ensures |s| > 0 && s[0] == '/' ==> p[|MirrorRoot| + 1..] == s[1..]
    ensures !(|s| > 0 && s[0] == '/') ==> p[|MirrorRoot| + 1..] == s
  {
    if |s| > 0 && s[0] == '/' then MirrorRoot + s else MirrorRoot + "/" + s
  }

  /** Recovers the slash-led suffix a mirror path was made from. */
  function SuffixOf(p: string): (r: Option<string>)
    ensures r.Some? ==> |r.value| > 0 && r.value[0] == '/'
  {
    if |p| > |MirrorRoot| && p[..|MirrorRoot|] == MirrorRoot && p[|MirrorRoot|] == '/'
    then Some(p[|MirrorRoot|..])
    else None
  }

  /** Every slash-led suffix comes back from its path. */
  lemma SuffixOfPathOf(s: string)
    requires |s| > 0 && s[0] == '/'
    ensures SuffixOf(PathOf(s)) == Some(s)
  {
    assert PathOf(s)[..|MirrorRoot|] == MirrorRoot;
    assert PathOf(s)[|MirrorRoot|..] == s;
  }

  /** Distinct slash-led suffixes, which is all the filters let through, get
      distinct path strings. A `PathBuf` compares by components, so distinct
      strings can still name one file (see `DoubleSlashSharesFile`). */
  lemma PathOfInjective(a: string, b: string)
    requires |a| > 0 && a[0] == '/' && |b| > 0 && b[0] == '/'
    requires PathOf(a) == PathOf(b)
    ensures a == b
  {
    SuffixOfPathOf(a);
    SuffixOfPathOf(b);
  }

  /** Without the leading slash injectivity fails: `/a` and `a` share a file. */
  lemma SlashlessSuffixCollides()
    ensures PathOf("/a") == PathOf("a")
  {
  }

  /** The characters of a path other than separators, in order. */
  function NonSeparators(p: string): string
  {
    Filter(p, c => c != '/')
  }

  /** A path with every run of `/` collapsed to one, which is how `PathBuf`
      components treat repeated separators: only separators are dropped, so
      every other character stays, in order (`CollapseKeepsNames`). */
  function CollapseSlashes(p: string): (q: string)
    decreases |p|
    ensures |q| <= |p|
    ensures p != [] ==> q != [] && q[0] == p[0]
    ensures forall k :: 0 <= k < |q| - 1 ==> !(q[k] == '/' && q[k + 1] == '/')
  {
    if |p| >= 2 && p[0] == '/' && p[1] == '/' then CollapseSlashes(p[1..])
    else if p == [] then []
    else [p[0]] + CollapseSlashes(p[1..])
  }

  /** Collapsing drops only separators: the result is a subsequence of the
      path and keeps every other character, in order. */
  lemma {:induction false} CollapseKeepsNames(p: string)
    decreases |p|
    ensures IsSubsequence(CollapseSlashes(p), p)
    ensures NonSeparators(CollapseSlashes(p)) == NonSeparators(p)
  {
    if p != [] {
      CollapseKeepsNames(p[1..]);
      if !(|p| >= 2 && p[0] == '/' && p[1] == '/') {
        var rest := CollapseSlashes(p[1..]);
        assert CollapseSlashes(p) == [p[0]] + rest;
        assert ([p[0]] + rest)[1..] == rest;
      }
    }
  }

  /** Collapsing passes over a leading character that is not a separator. */
  lemma CollapseCons(c: char, u: string)
    requires c != '/'
    ensures CollapseSlashes([c] + u) == [c] + CollapseSlashes(u)
  {
    assert ([c] + u)[1..] == u;
  }

  /** Collapsing passes over a separator-free prefix such as `ripped`. */
  lemma {:induction false} CollapsePrefix(w: string, u: string)
    requires forall k :: 0 <= k < |w| ==> w[k] != '/'
    decreases |w|
    ensures CollapseSlashes(w + u) == w + CollapseSlashes(u)
  {
    if w == [] {
      assert w + u == u;
    } else {
      var t := w[1..];
      assert forall k :: 0 <= k < |t| ==> t[k] != '/' by {
        forall k | 0 <= k < |t| ensures t[k] != '/' { assert t[k] == w[k + 1]; }
      }
      CollapsePrefix(t, u);
      CollapseCons(w[0], t + u);
      calc {
        CollapseSlashes(w + u);
        { assert w + u == [w[0]] + (t + u); }
        CollapseSlashes([w[0]] + (t + u));
        [w[0]] + CollapseSlashes(t + u);
        [w[0]] + (t + CollapseSlashes(u));
        { assert w == [w[0]] + t; }
        w + CollapseSlashes(u);
      }
    }
  }

  /** A path with no repeated separator is left as it is. */
  lemma {:induction false} CollapseFixesClean(p: string)
    requires forall k :: 0 <= k < |p| - 1 ==> !(p[k] == '/' && p[k + 1] == '/')
    decreases |p|
    ensures CollapseSlashes(p) == p
  {
    if p != [] {
      forall k | 0 <= k < |p[1..]| - 1
        ensures !(p[1..][k] == '/' && p[1..][k + 1] == '/')
      {
        assert p[1..][k] == p[k + 1] && p[1..][k + 1] == p[k + 2];
      }
      CollapseFixesClean(p[1..]);
      if |p| >= 2 {
        assert !(p[0] == '/' && p[1] == '/');
      }
    }
  }

  /** Collapsing twice changes nothing more. */
  lemma CollapseIdempotent(p: string)
    ensures CollapseSlashes(CollapseSlashes(p)) == CollapseSlashes(p)
  {
    CollapseFixesClean(CollapseSlashes(p));
  }

  /** Two paths that open the same file, as far as repeated separators go. */
  predicate SameFile(p: string, q: string)
  {
    CollapseSlashes(p) == CollapseSlashes(q)
  }

  /** For every slash-led suffix s, `/` + s gets a distinct path string from
      s but names the same file: `//x` and `/x` share `ripped/x`. */
  lemma DoubleSlashSharesFile(s: string)
    requires |s| > 0 && s[0] == '/'
    ensures PathOf("/" + s) != PathOf(s)
    ensures SameFile(PathOf("/" + s), PathOf(s))
  {
    assert PathOf("/" + s) == MirrorRoot + ("/" + s);
    assert PathOf(s) == MirrorRoot + s;
    assert |PathOf("/" + s)| != |PathOf(s)|;
    CollapsePrefix(MirrorRoot, "/" + s);
    CollapsePrefix(MirrorRoot, s);
    assert ("/" + s)[1..] == s;
  }

  /** A `..` segment passes the link filter and lands in the path as is, so
      `/../x` is written outside the mirror directory. */
  lemma DotDotLeavesMirror()
    ensures Filters.KeepLink("/../x")
    ensures PathOf("/../x") == "ripped/../x"
  {
  }
}
