/**
 * The part of Python's `urllib.parse.urlparse` the source filter needs:
 * the network-location component (`netloc`) of a link, or `None` where
 * the library raises `ValueError`.
 */
module Urls {
  import opened Wrappers
  import opened Strings

  /** The index of the first character of `s` in `cs`, or `|s|` if none. */
  function IndexOfAny(s: string, cs: set<char>): (r: nat)
    ensures r <= |s|
    ensures forall k :: 0 <= k < r ==> s[k] !in cs
    ensures r < |s| ==> s[r] in cs
    decreases |s|
  {
    if s == [] then 0
    else if s[0] in cs then 0
    else 1 + IndexOfAny(s[1..], cs)
  }

  /** Characters `urlsplit` strips from the front of a URL (C0 controls and space). */
  predicate IsC0OrSpace(c: char)
  {
    c <= ' '
  }

  /** Characters allowed in a URL scheme. */
  predicate IsSchemeChar(c: char)
  {
    ('a' <= c <= 'z') || ('A' <= c <= 'Z') || ('0' <= c <= '9') || c == '+' || c == '-' || c == '.'
  }

  /** `url.lstrip(C0 controls and space)`. */
  function StripC0(url: string): (r: string)
    ensures r == [] || !IsC0OrSpace(r[0])
    ensures |r| <= |url| && r == url[|url| - |r|..]
    decreases |url|
  {
    if url != [] && IsC0OrSpace(url[0]) then StripC0(url[1..]) else url
  }

  /** Every character of `s` may appear in a scheme. */
  predicate AllSchemeChars(s: string)
    decreases |s|
  {
    s == [] || (IsSchemeChar(s[0]) && AllSchemeChars(s[1..]))
  }

  /** The position of the colon that ends a valid scheme, if there is one. */
  function SchemeEnd(u: string): (r: Option<nat>)
    ensures r.Some? ==> 0 < r.value < |u| && u[r.value] == ':'
  {
    var colon := IndexOfAny(u, {':'});
    if 0 < colon < |u| && (('a' <= u[0] <= 'z') || ('A' <= u[0] <= 'Z')) && AllSchemeChars(u[..colon])
    then Some(colon)
    else None
  }

  /** The URL with every tab, carriage return and line feed removed. */
  function RemoveUnsafe(u: string): (r: string)
    ensures forall k :: 0 <= k < |r| ==> r[k] !in {'\t', '\r', '\n'}
    decreases |u|
  {
    if u == [] then []
    else (if u[0] in {'\t', '\r', '\n'} then [] else [u[0]]) + RemoveUnsafe(u[1..])
  }

  /** What follows a valid scheme and its colon, or all of `u` without one. */
  function AfterScheme(u: string): (r: string)
    ensures |r| <= |u| && forall k :: 0 <= k < |r| ==> r[k] == u[|u| - |r| + k]
  {
    match SchemeEnd(u)
    case Some(i) => u[i + 1..]
    case None => u
  }

  /** The network location of what follows the scheme: after a `//`, up to
      the first `/`, `?` or `#`; empty without `//`; `None` (the library
      raises) for an unpaired square bracket. */
  function HostPart(rest: string): (r: Option<string>)
    ensures r.Some? ==> |r.value| + 2 <= |rest| || r.value == []
    ensures r.Some? ==> forall k :: 0 <= k < |r.value| ==> r.value[k] !in {'/', '?', '#'} && r.value[k] == rest[k + 2]
  {
    if !StartsWith(rest, "//") then Some([])
    else
      var tail := rest[2..];
      var net := tail[..IndexOfAny(tail, {'/', '?', '#'})];
      if ('[' in net) != (']' in net) then None else Some(net)
  }

  /** The `netloc` of `url` as `urlsplit` (CPython 3.12) computes it: after
      dropping leading controls and every tab, CR and LF, and after a valid
      scheme, a `//` starts the network location, which runs up to the first
      `/`, `?` or `#`. Without `//` the network location is empty. An
      unpaired square bracket in it makes the library raise (`None`). */
  function Netloc(url: string): (r: Option<string>)
    ensures r.Some? ==> forall k :: 0 <= k < |r.value| ==> r.value[k] !in {'/', '?', '#', '\t', '\r', '\n'}
  {
    var u := RemoveUnsafe(StripC0(url));
    var rest := AfterScheme(u);
    assert forall k :: 0 <= k < |rest| ==> rest[k] !in {'\t', '\r', '\n'};
    HostPart(rest)
  }

  /** Skipping a prefix free of `cs` moves the first match by its length. */
  lemma {:induction false} IndexOfAnyAppend(a: string, b: string, cs: set<char>)
    requires forall k :: 0 <= k < |a| ==> a[k] !in cs
    ensures IndexOfAny(a + b, cs) == |a| + IndexOfAny(b, cs)
    decreases |a|
  {
    if a != [] {
      assert (a + b)[0] == a[0] && (a + b)[1..] == a[1..] + b;
      IndexOfAnyAppend(a[1..], b, cs);
    } else {
      assert a + b == b;
    }
  }

  /** Removing tabs, CRs and LFs works piece by piece. */
  lemma {:induction false} RemoveUnsafeAppend(a: string, b: string)
    ensures RemoveUnsafe(a + b) == RemoveUnsafe(a) + RemoveUnsafe(b)
    decreases |a|
  {
    if a != [] {
      assert (a + b)[0] == a[0] && (a + b)[1..] == a[1..] + b;
      RemoveUnsafeAppend(a[1..], b);
      var x := if a[0] in {'\t', '\r', '\n'} then [] else [a[0]];
      assert RemoveUnsafe(a + b) == x + (RemoveUnsafe(a[1..]) + RemoveUnsafe(b));
      assert x + (RemoveUnsafe(a[1..]) + RemoveUnsafe(b)) == (x + RemoveUnsafe(a[1..])) + RemoveUnsafe(b);
    } else {
      assert a + b == b;
    }
  }

  /** A string without tabs, CRs and LFs is left alone. */
  lemma {:induction false} RemoveUnsafeClean(a: string)
    requires forall k :: 0 <= k < |a| ==> a[k] !in {'\t', '\r', '\n'}
    ensures RemoveUnsafe(a) == a
    decreases |a|
  {
    if a != [] {
      RemoveUnsafeClean(a[1..]);
    }
  }

  /** A string made of scheme characters passes the scheme test. */
  lemma {:induction false} SchemeCharsAll(s: string)
    requires forall k :: 0 <= k < |s| ==> IsSchemeChar(s[k])
    ensures AllSchemeChars(s)
    decreases |s|
  {
    if s != [] {
      SchemeCharsAll(s[1..]);
    }
  }

  /** `scheme://host` holds no tab, CR or LF. */
  lemma FrontClean(scheme: string, host: string)
    requires forall k :: 0 <= k < |scheme| ==> IsSchemeChar(scheme[k])
    requires forall k :: 0 <= k < |host| ==> host[k] !in {'\t', '\r', '\n'}
    ensures RemoveUnsafe(scheme + "://" + host) == scheme + "://" + host
  {
    assert forall k :: 0 <= k < |scheme| ==> scheme[k] !in {'\t', '\r', '\n'};
    RemoveUnsafeClean(scheme);
    RemoveUnsafeClean(host);
    RemoveUnsafeClean("://");
    RemoveUnsafeAppend(scheme, "://");
    RemoveUnsafeAppend(scheme + "://", host);
  }

  /** A tail that starts with a delimiter still does once cleaned. */
  lemma CleanedTail(rest: string)
    requires rest == [] || rest[0] in {'/', '?', '#'}
    ensures RemoveUnsafe(rest) == [] || RemoveUnsafe(rest)[0] in {'/', '?', '#'}
  {
    if rest != [] {
      assert RemoveUnsafe(rest) == [rest[0]] + RemoveUnsafe(rest[1..]);
    }
  }

  /** Cleaning `scheme://host` followed by a tail only cleans the tail. */
  lemma CleanedUrl(scheme: string, host: string, rest: string)
    requires scheme != [] && (('a' <= scheme[0] <= 'z') || ('A' <= scheme[0] <= 'Z'))
    requires forall k :: 0 <= k < |scheme| ==> IsSchemeChar(scheme[k])
    requires forall k :: 0 <= k < |host| ==> host[k] !in {'\t', '\r', '\n'}
    ensures RemoveUnsafe(StripC0(scheme + "://" + host + rest)) == scheme + "://" + host + RemoveUnsafe(rest)
  {
    var front := scheme + "://" + host;
    var url := front + rest;
    assert StripC0(url) == url by {
      assert url[0] == scheme[0];
    }
    RemoveUnsafeAppend(front, rest);
    FrontClean(scheme, host);
  }

  /** A valid scheme followed by a colon is recognised and skipped. */
  lemma SchemeSkipped(scheme: string, after: string)
    requires scheme != [] && (('a' <= scheme[0] <= 'z') || ('A' <= scheme[0] <= 'Z'))
    requires forall k :: 0 <= k < |scheme| ==> IsSchemeChar(scheme[k])
    ensures AfterScheme(scheme + ":" + after) == after
  {
    var u := scheme + ":" + after;
    IndexOfAnyAppend(scheme, ":" + after, {':'});
    assert u == scheme + (":" + after);
    assert u[..|scheme|] == scheme;
    SchemeCharsAll(scheme);
    assert SchemeEnd(u) == Some(|scheme|);
    assert u[|scheme| + 1..] == after;
  }

  /** After `//`, a host free of delimiters and brackets, then a delimiter
      or nothing, the network location is that host. */
  lemma HostPartOf(host: string, rest: string)
    requires forall k :: 0 <= k < |host| ==> host[k] !in {'/', '?', '#', '[', ']'}
    requires rest == [] || rest[0] in {'/', '?', '#'}
    ensures HostPart("//" + host + rest) == Some(host)
  {
    var after := "//" + host + rest;
    assert StartsWith(after, "//");
    var tail := after[2..];
    assert tail == host + rest;
    IndexOfAnyAppend(host, rest, {'/', '?', '#'});
    assert tail[..|host|] == host;
    assert '[' !in host && ']' !in host;
  }

  /** `a://bc` is `a`, a colon, then `//bc`. */
  lemma ColonSlashes(a: string, b: string, c: string)
    ensures a + "://" + b + c == a + ":" + ("//" + b + c)
  {
    var l := a + "://" + b + c;
    var r := a + ":" + ("//" + b + c);
    assert |l| == |r|;
    forall k | 0 <= k < |l|
      ensures l[k] == r[k]
    {
      if k >= |a| + 3 {
        assert l[k] == (b + c)[k - |a| - 3];
        assert r[k] == (b + c)[k - |a| - 3];
      }
    }
  }

  /** The network location of `scheme://host` followed by a path, query or
      fragment (or nothing) is exactly the host, when the scheme is valid
      and the host holds no delimiter, bracket, tab, CR or LF. */
  lemma NetlocOfHost(scheme: string, host: string, rest: string)
    requires scheme != [] && (('a' <= scheme[0] <= 'z') || ('A' <= scheme[0] <= 'Z'))
    requires forall k :: 0 <= k < |scheme| ==> IsSchemeChar(scheme[k])
    requires forall k :: 0 <= k < |host| ==> host[k] !in {'/', '?', '#', '[', ']', '\t', '\r', '\n'}
    requires rest == [] || rest[0] in {'/', '?', '#'}
    ensures Netloc(scheme + "://" + host + rest) == Some(host)
  {
    var url := scheme + "://" + host + rest;
    var rest' := RemoveUnsafe(rest);
    var after := "//" + host + rest';
    var u := RemoveUnsafe(StripC0(url));
    assert u == scheme + ":" + after by {
      CleanedUrl(scheme, host, rest);
      ColonSlashes(scheme, host, rest');
    }
    assert AfterScheme(u) == after by {
      SchemeSkipped(scheme, after);
    }
    assert HostPart(after) == Some(host) by {
      CleanedTail(rest);
      HostPartOf(host, rest');
    }
  }

  /** An example: the host of an ORF article link, `https://orf.at/x`. */
  lemma NetlocExample()
    ensures Netloc("https" + "://" + "orf.at" + "/x") == Some("orf.at")
  {
    var scheme, host := "https", "orf.at";
    assert forall k :: 0 <= k < |scheme| ==> IsSchemeChar(scheme[k]);
    assert forall k :: 0 <= k < |host| ==> host[k] !in {'/', '?', '#', '[', ']', '\t', '\r', '\n'};
    NetlocOfHost(scheme, host, "/x");
  }
}
