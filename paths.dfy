/**
 * The file-name sanitiser of the delete handler: POSIX `path.basename`
 * without a suffix argument. The result is the last path component:
 * trailing separators are dropped, then everything up to and including
 * the last remaining separator is dropped.
 */
module Paths {

  const Sep: char := '/'

  /** `n` separators in a row. */
  function Seps(n: nat): (r: string)
    ensures |r| == n
  {
    if n == 0 then [] else Seps(n - 1) + [Sep]
  }

  /** `s` with every trailing separator removed. */
  function TrimTrailing(s: string): (r: string)
    ensures |r| <= |s|
    ensures r == [] || r[|r| - 1] != Sep
  {
    if s == [] || s[|s| - 1] != Sep then s
    else TrimTrailing(s[..|s| - 1])
  }

  /** What is trimmed is separators only: `s` is the trimmed part followed by separators. */
  lemma {:induction false} TrimTrailingSplit(s: string)
    ensures s == TrimTrailing(s) + Seps(|s| - |TrimTrailing(s)|)
  {
    if s != [] && s[|s| - 1] == Sep {
      var init := s[..|s| - 1];
      TrimTrailingSplit(init);
      assert s == init + [Sep];
    }
  }

  /** The part of `s` after its last separator (all of `s` when it has none). */
  function LastSegment(s: string): (r: string)
    ensures |r| <= |s|
    ensures Sep !in r
  {
    if s == [] || s[|s| - 1] == Sep then []
    else LastSegment(s[..|s| - 1]) + [s[|s| - 1]]
  }

  /** `path.basename(path)`: the final component, never holding a separator. */
  function Basename(path: string): (r: string)
    ensures Sep !in r
    ensures |r| <= |path|
  {
    LastSegment(TrimTrailing(path))
  }

  /** Trailing separators after a component that does not end in one are exactly what is trimmed. */
  lemma {:induction false} TrimTrailingOf(body: string, post: string)
    requires body != [] && body[|body| - 1] != Sep
    requires post == Seps(|post|)
    ensures TrimTrailing(body + post) == body
  {
    if post == [] {
      assert body + post == body;
    } else {
      var shorter := post[..|post| - 1];
      assert (body + post)[..|body + post| - 1] == body + shorter;
      assert (body + post)[|body + post| - 1] == Sep;
      TrimTrailingOf(body, shorter);
    }
  }

  /** After a prefix that is empty or ends in a separator, a separator-free name is the last segment. */
  lemma {:induction false} LastSegmentOf(pre: string, name: string)
    requires Sep !in name
    requires pre == [] || pre[|pre| - 1] == Sep
    ensures LastSegment(pre + name) == name
  {
    if name == [] {
      assert pre + name == pre;
    } else {
      var init := name[..|name| - 1];
      assert (pre + name)[..|pre + name| - 1] == pre + init;
      assert (pre + name)[|pre + name| - 1] == name[|name| - 1];
      assert name[|name| - 1] in name;
      LastSegmentOf(pre, init);
      assert name == init + [name[|name| - 1]];
    }
  }

  /**
   * Reference characterisation: whenever `path` splits as a prefix that is
   * empty or ends in a separator, a non-empty separator-free component, and
   * nothing but separators, that component is the basename.
   */
  lemma BasenameIsFinalComponent(path: string, pre: string, name: string, post: string)
    requires path == pre + name + post
    requires name != [] && Sep !in name
    requires pre == [] || pre[|pre| - 1] == Sep
    requires post == Seps(|post|)
    ensures Basename(path) == name
  {
    assert (pre + name)[|pre + name| - 1] == name[|name| - 1];
    TrimTrailingOf(pre + name, post);
    LastSegmentOf(pre, name);
  }

  /** Nothing but separators trims down to nothing. */
  lemma {:induction false} TrimSeps(n: nat)
    ensures TrimTrailing(Seps(n)) == []
  {
    if n > 0 {
      TrimSeps(n - 1);
      assert Seps(n)[..n - 1] == Seps(n - 1);
    }
  }

  /** Something left after trimming leaves a non-empty last segment. */
  lemma BasenameOfTrimmed(path: string)
    ensures TrimTrailing(path) != [] ==> Basename(path) != []
  {
    var t := TrimTrailing(path);
    if t != [] {
      assert LastSegment(t) == LastSegment(t[..|t| - 1]) + [t[|t| - 1]];
    }
  }

  /** The basename is empty exactly when the path holds nothing but separators. */
  lemma BasenameEmpty(path: string)
    ensures Basename(path) == [] <==> path == Seps(|path|)
  {
    if Basename(path) == [] {
      BasenameOfTrimmed(path);
      TrimTrailingSplit(path);
    }
    if path == Seps(|path|) {
      TrimSeps(|path|);
    }
  }

  /** A name without separators is its own basename, so sanitising twice changes nothing. */
  lemma BasenameOfName(name: string)
    requires Sep !in name
    ensures Basename(name) == name
  {
    if name != [] {
      BasenameIsFinalComponent(name, [], name, []);
    }
  }

  lemma BasenameIdempotent(path: string)
    ensures Basename(Basename(path)) == Basename(path)
  {
    BasenameOfName(Basename(path));
  }

  /** A traversal attempt is cut down to its last component. */
  lemma BasenameDropsTraversal()
    ensures Basename("../secret") == "secret"
  {
    assert "../secret" == "../" + "secret" + "";
    BasenameIsFinalComponent("../secret", "../", "secret", "");
  }

  /** Trailing separators are ignored. */
  lemma BasenameDropsTrailing()
    ensures Basename("a/b//") == "b"
  {
    assert "a/b//" == "a/" + "b" + "//";
    BasenameIsFinalComponent("a/b//", "a/", "b", "//");
  }

  /** `.` and `..` come through unchanged; a bare separator gives the empty name. */
  lemma BasenameOfDots()
    ensures Basename("..") == ".."
    ensures Basename(".") == "."
    ensures Basename("/") == ""
  {
    BasenameOfName("..");
    BasenameOfName(".");
    BasenameEmpty("/");
  }
}
