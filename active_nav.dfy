/**
 * Highlighting the navigation link of the page being viewed: the page is
 * the last `/`-separated segment of the location's path, `index.html` when
 * that segment is empty, and a link is marked `active` when its `href` is
 * that page.
 */
module ActiveNav {

  /** `s.split('/')`: the pieces between the slashes, empty ones included;
      there is always at least one piece. */
  function Split(s: string): (parts: seq<string>)
    ensures |parts| >= 1
  {
    if s == [] then [[]]
    else
      var init := Split(s[..|s| - 1]);
      var c := s[|s| - 1];
      if c == '/' then init + [[]]
      else init[..|init| - 1] + [init[|init| - 1] + [c]]
  }

  /** `parts.join('/')`. */
  function Join(parts: seq<string>): string
    requires |parts| >= 1
  {
    if |parts| == 1 then parts[0] else Join(parts[..|parts| - 1]) + "/" + parts[|parts| - 1]
  }

  /** Extending the last piece extends the joined string. */
  lemma JoinExtendLast(parts: seq<string>, c: char)
    requires |parts| >= 1
    ensures Join(parts[..|parts| - 1] + [parts[|parts| - 1] + [c]]) == Join(parts) + [c]
  {
    var m := |parts|;
    var ext := parts[..m - 1] + [parts[m - 1] + [c]];
    if m > 1 {
      assert ext[..m - 1] == parts[..m - 1];
    }
  }

  /** Joining the pieces with slashes gives back the path. */
  lemma {:induction false} JoinSplit(s: string)
    ensures Join(Split(s)) == s
  {
    if s != [] {
      var p := s[..|s| - 1];
      var c := s[|s| - 1];
      var init := Split(p);
      JoinSplit(p);
      assert s == p + [c];
      if c == '/' {
        assert (init + [[]])[..|init|] == init;
      } else {
        JoinExtendLast(init, c);
      }
    }
  }

  /** No piece holds a slash. */
  lemma {:induction false} SplitHasNoSlash(s: string)
    ensures forall k | 0 <= k < |Split(s)| :: '/' !in Split(s)[k]
  {
    if s != [] {
      var p := s[..|s| - 1];
      var c := s[|s| - 1];
      var init := Split(p);
      SplitHasNoSlash(p);
      if c != '/' {
        var m := |init|;
        var parts := init[..m - 1] + [init[m - 1] + [c]];
        forall k | 0 <= k < m
          ensures '/' !in parts[k]
        {
          if k < m - 1 {
            assert parts[k] == init[k];
          }
        }
      }
    }
  }

  /** The last piece of a split, as `pop()` returns it. */
  function LastSegment(path: string): (r: string) {
    var parts := Split(path);
    parts[|parts| - 1]
  }

  /** The last piece is the part of the path after its last slash: a suffix
      of the path holding no slash, preceded by a slash unless it is the
      whole path. */
  lemma {:induction false} LastSegmentIsTail(path: string)
    ensures |LastSegment(path)| <= |path|
    ensures LastSegment(path) == path[|path| - |LastSegment(path)|..]
    ensures '/' !in LastSegment(path)
    ensures |LastSegment(path)| < |path| ==> path[|path| - |LastSegment(path)| - 1] == '/'
  {
    if path != [] {
      var p := path[..|path| - 1];
      LastSegmentIsTail(p);
      var c := path[|path| - 1];
      if c != '/' {
        var last := LastSegment(p);
        assert LastSegment(path) == last + [c];
        assert path[|path| - |last| - 1..] == p[|p| - |last|..] + [c];
        if |last| + 1 < |path| {
          assert path[|path| - |last| - 2] == p[|p| - |last| - 1];
        }
      }
    }
  }

  /** `window.location.pathname.split('/').pop() || 'index.html'`. */
  function CurrentPage(path: string): (page: string)
    ensures page != []
  {
    var segment := LastSegment(path);
    if segment == [] then "index.html" else segment
  }

  /** The page is the path's final segment, or `index.html` exactly when
      the path is empty or ends with a slash. */
  lemma CurrentPageMeaning(path: string)
    ensures CurrentPage(path) == "index.html" || CurrentPage(path) == LastSegment(path)
    ensures LastSegment(path) == [] <==> path == [] || path[|path| - 1] == '/'
    ensures '/' !in CurrentPage(path)
  {
    LastSegmentIsTail(path);
    if path != [] && path[|path| - 1] != '/' {
      assert LastSegment(path) != [] by {
        var p := path[..|path| - 1];
        var parts := Split(p);
        assert LastSegment(path) == parts[|parts| - 1] + [path[|path| - 1]];
      }
    }
  }

  /** The test the script applies to each link's `href`. */
  predicate IsActive(href: string, currentPage: string) {
    href == currentPage || (currentPage == [] && href == "index.html")
  }

  /** The page is never empty, so the second alternative of the test never
      applies: a link is active exactly when its `href` is the page. */
  lemma EmptyPageBranchIsDead(href: string, path: string)
    ensures IsActive(href, CurrentPage(path)) <==> href == CurrentPage(path)
  {
  }

  /** A page in the site root is its own file name. */
  lemma CurrentPageOfFile()
    ensures CurrentPage("/faculty.html") == "faculty.html"
  {
    var path := "/faculty.html";
    LastSegmentIsTail(path);
    assert forall k | 1 <= k < |path| :: path[k] != '/';
    assert LastSegment(path) == path[1..];
  }

  /** The site root and a directory addressed with a trailing slash are
      both `index.html`. */
  lemma CurrentPageOfDirectory()
    ensures CurrentPage("/") == "index.html"
    ensures CurrentPage("/staff/") == "index.html"
  {
    CurrentPageMeaning("/");
    CurrentPageMeaning("/staff/");
  }

  /** The navigation bar: the `href` of every `.nav-link` and whether it
      carries the `active` class. */
  class NavBar {
    const hrefs: seq<string>
    var active: array<bool>

    ghost predicate Valid()
      reads this
    {
      active.Length == |hrefs|
    }

    constructor (hrefs: seq<string>)
      ensures Valid() && this.hrefs == hrefs && fresh(active)
      ensures forall k | 0 <= k < |hrefs| :: !active[k]
    {
      this.hrefs := hrefs;
      active := new bool[|hrefs|](k => false);
    }

    /** `initActiveNavigation`: mark every link whose `href` passes the test
        and unmark every other one. */
    method HighlightCurrentPage(path: string)
      requires Valid()
      modifies active
      ensures forall k | 0 <= k < active.Length :: active[k] == IsActive(hrefs[k], CurrentPage(path))
      ensures forall k | 0 <= k < active.Length :: active[k] <==> hrefs[k] == CurrentPage(path)
    {
      var currentPage := CurrentPage(path);
      var i := 0;
      while i < active.Length
        invariant 0 <= i <= active.Length
        invariant forall k | 0 <= k < i :: active[k] == IsActive(hrefs[k], currentPage)
      {
        var href := hrefs[i];
        if href == currentPage || (currentPage == [] && href == "index.html") {
          active[i] := true;
        } else {
          active[i] := false;
        }
        i := i + 1;
      }
    }
  }
}
