/**
 * The end of `scrap_entity` (scraping.py:211-216): the CSV export link is a
 * `javascript:abrirDocumento('<url>')` href; the wrapper is removed with two
 * `str.replace` calls and the file is saved under the URL's last path
 * segment.
 */
module Download {
  import opened Text

  const Opener: string := "javascript:abrirDocumento('"
  const Closer: string := "')"

  /** `href.replace("')", "").replace("javascript:abrirDocumento('", "")`. */
  function CleanHref(href: string): (r: string)
    ensures |r| <= |href|
  {
    ReplaceAll(ReplaceAll(href, Closer, ""), Opener, "")
  }

  /** `url.split("/")[-1]`: the text after the last `/`, or all of `url` when it has none. */
  function FileName(url: string): (r: string)
    ensures '/' !in r
    ensures |r| <= |url| && r == url[|url| - |r|..]
    ensures '/' !in url ==> r == url
    ensures '/' in url ==> |r| < |url| && url[|url| - |r| - 1] == '/'
  {
    var parts := Split(url, '/');
    var n := |parts| - 1;
    if n == 0 then
      CountZero(url, '/');
      parts[0]
    else
      JoinLast(parts, '/');
      assert url == Join(parts[..n], '/') + ['/'] + parts[n];
      CountZero(url, '/');
      parts[n]
  }

  /** The wrapper text holds no `)`. */
  lemma OpenerHasNoParen()
    ensures forall k :: 0 <= k < |Opener| ==> Opener[k] != ')'
  {
  }

  /**
   * An href that wraps `u` in `javascript:abrirDocumento('...')` cleans to
   * `u`, when `u` holds neither marker and does not start with `)` (a
   * leading `)` would pair with the wrapper's `'`).
   */
  lemma CleanWrapped(u: string)
    requires !Contains(u, Opener) && !Contains(u, Closer)
    requires u == [] || u[0] != ')'
    ensures CleanHref(Opener + u + Closer) == u
  {
    var s := Opener + u + Closer;
    NoCloserInside(u);
    assert s == (Opener + u) + Closer;
    ReplaceSkipsPrefix(Opener + u, Closer, Closer, "");
    ReplaceAtFront(Closer, [], "");
    assert Closer + [] == Closer;
    assert ReplaceAll(s, Closer, "") == Opener + u;
    ReplaceAtFront(Opener, u, "");
    ReplaceAbsent(u, Opener, "");
  }

  /** In the wrapped href the only `')` is the closing one. */
  lemma NoCloserInside(u: string)
    requires !Contains(u, Closer)
    requires u == [] || u[0] != ')'
    ensures forall i: nat :: i < |Opener + u| ==> !OccursAt(Opener + u + Closer, Closer, i)
  {
    var s := Opener + u + Closer;
    var o := |Opener|;
    OpenerHasNoParen();
    ContainsIff(u, Closer);
    forall i: nat | i < |Opener + u| ensures !OccursAt(s, Closer, i) {
      assert s[i..i + 2][1] == s[i + 1];
      if i + 1 < o {
        assert s[i + 1] == Opener[i + 1];
      } else if i + 1 == o {
        // the wrapper's `'` is followed by `u`'s first character, or by `'`
        assert s[i + 1] != ')';
      } else if i + 1 < o + |u| {
        // both characters lie inside `u`, which holds no `')`
        assert !OccursAt(u, Closer, i - o);
        assert s[i..i + 2] == u[i - o..i - o + 2];
      } else {
        assert s[i + 1] == Closer[0];
      }
    }
  }

  /**
   * Without the condition on the first character the wrapper is not
   * recovered: `u = ")x"` forms `')` with the wrapper's quote, and both
   * replacements then miss.
   */
  lemma CleanWrappedLeadingParen()
    ensures CleanHref(Opener + ")x" + Closer) == "javascript:abrirDocumento(x"
  {
    var p := "javascript:abrirDocumento(";
    var rest := "')x')";
    var s := Opener + ")x" + Closer;
    assert s == p + rest;
    OpenerHasNoParen();
    assert p == Opener[..|Opener| - 1];
    NoCloserBefore(p, rest);
    ReplaceSkipsPrefix(p, rest, Closer, "");
    assert rest == Closer + "x" + Closer;
    ReplaceAtFront(Closer, "x" + Closer, "");
    assert "x" + Closer == ['x'] + Closer;
    assert ReplaceAll("x" + Closer, Closer, "") == "x" + ReplaceAll(Closer, Closer, "");
    ReplaceAtFront(Closer, [], "");
    assert Closer + [] == Closer;
    var once := p + "x";
    assert ReplaceAll(s, Closer, "") == once;
    ContainsIff(once, Opener);
    assert !OccursAt(once, Opener, 0) by {
      assert once[26] != Opener[26];
    }
    ReplaceAbsent(once, Opener, "");
  }

  /** No `')` starts inside a `)`-free prefix that is followed by anything but `)`. */
  lemma NoCloserBefore(p: string, rest: string)
    requires ')' !in p
    requires rest != [] && rest[0] != ')'
    ensures forall i: nat :: i < |p| ==> !OccursAt(p + rest, Closer, i)
  {
    forall i: nat | i < |p| ensures !OccursAt(p + rest, Closer, i) {
      if i + 2 <= |p + rest| {
        assert (p + rest)[i..i + 2][1] == (p + rest)[i + 1];
        if i + 1 < |p| {
          assert (p + rest)[i + 1] == p[i + 1];
        } else {
          assert (p + rest)[i + 1] == rest[0];
        }
      }
    }
  }

  /** The wrapped URL's file name is its last path segment. */
  lemma FileNameOfWrapped(dir: string, name: string)
    requires '/' !in name
    requires !Contains(dir + "/" + name, Opener) && !Contains(dir + "/" + name, Closer)
    requires dir == [] || dir[0] != ')'
    ensures FileName(CleanHref(Opener + (dir + "/" + name) + Closer)) == name
  {
    CleanWrapped(dir + "/" + name);
    FileNameAfterSlash(dir, name);
  }

  /** A URL ending in `/` and a slash-free segment has that segment as its file name. */
  lemma FileNameAfterSlash(dir: string, name: string)
    requires '/' !in name
    ensures FileName(dir + "/" + name) == name
  {
    var u := dir + "/" + name;
    var r := FileName(u);
    var d := |dir|;
    assert u[d] == '/';
    assert u[|u| - |name|..] == name;
  }
}
