/** `Url::new` (src/url.rs): split off the scheme at the first "://" and accept only http. */
module Url {
  import opened Wrappers

  const SEPARATOR: string := "://"

  datatype Url = Url(scheme: string)

  /**
   * Why `Url::new` panics: indexing the second piece of the split when there
   * is no separator, or the `assert_eq!` on the scheme.
   */
  datatype UrlError = MissingSeparator | UnsupportedScheme(scheme: string)

  ghost predicate SeparatorAt(s: string, j: nat)
  {
    j + |SEPARATOR| <= |s| && s[j..j + |SEPARATOR|] == SEPARATOR
  }

  /** The first index at or after `from` where "://" starts, as `splitn(2, "://")` finds it. */
  function FindSeparator(s: string, from: nat): (r: Option<nat>)
    requires from <= |s|
    ensures r.Some? ==> from <= r.value && SeparatorAt(s, r.value)
    ensures r.Some? ==> forall j :: from <= j < r.value ==> !SeparatorAt(s, j)
    ensures r.None? ==> forall j :: from <= j ==> !SeparatorAt(s, j)
    decreases |s| - from
  {
    if |s| - from < |SEPARATOR| then None
    else if s[from..from + |SEPARATOR|] == SEPARATOR then Some(from)
    else FindSeparator(s, from + 1)
  }

  /** `Url::new`: the text before the first "://" is the scheme, and it must be "http". */
  function New(url: string): (r: Result<Url, UrlError>)
    ensures r.Ok? ==> r.value.scheme == "http"
    ensures r == Err(MissingSeparator) <==> forall j :: !SeparatorAt(url, j)
  {
    match FindSeparator(url, 0)
    case None => Err(MissingSeparator)
    case Some(i) =>
      var scheme := url[..i];
      if scheme == "http" then Ok(Url(scheme)) else Err(UnsupportedScheme(scheme))
  }

  /** `new` succeeds exactly on the strings that begin with "http://". */
  lemma NewSucceedsIffHttpPrefix(url: string)
    ensures New(url).Ok? <==> |url| >= 7 && url[..7] == "http://"
  {
    if |url| >= 7 && url[..7] == "http://" {
      assert SeparatorAt(url, 4);
      var f := FindSeparator(url, 0);
      forall j | 0 <= j < 4
        ensures !SeparatorAt(url, j)
      {
        assert url[j..j + 3][0] == url[j] == "http://"[j];
      }
      assert f == Some(4);
      assert url[..4] == "http";
    }
    if New(url).Ok? {
      var i := FindSeparator(url, 0).value;
      assert url[..i] == "http";
      assert url[..7] == url[..i] + url[i..i + 3];
    }
  }

  /**
   * With no "://" inside `a`, the scheme of `a + "://" + rest` is `a`
   * whatever `rest` holds, further separators included.
   */
  lemma SchemeIsTextBeforeFirstSeparator(a: string, rest: string)
    requires forall j :: !SeparatorAt(a, j)
    ensures FindSeparator(a + SEPARATOR + rest, 0) == Some(|a|)
    ensures New(a + SEPARATOR + rest) == if a == "http" then Ok(Url("http")) else Err(UnsupportedScheme(a))
  {
    var s := a + SEPARATOR + rest;
    assert SeparatorAt(s, |a|);
    forall j | 0 <= j < |a|
      ensures !SeparatorAt(s, j)
    {
      if j + 3 <= |a| {
        assert s[j..j + 3] == a[j..j + 3];
        assert !SeparatorAt(a, j);
      } else if j + 1 == |a| {
        // the window starts in `a` and reads ":/" next: its second character is ':', not '/'
        assert s[j + 1] == ':';
        assert j + 3 <= |s| ==> s[j..j + 3][1] == ':' != SEPARATOR[1];
      } else {
        assert j + 2 == |a|;
        assert s[j + 2] == ':';
        assert j + 3 <= |s| ==> s[j..j + 3][2] == ':' != SEPARATOR[2];
      }
    }
    assert s[..|a|] == a;
  }
}
