/** The cache-bust adapter of docs/js/cache-bust.js. When the page has loaded
    it replaces `window.fetch` by a wrapper that appends `_=<timestamp>` to
    every string URL containing the page's origin, with the timestamp taken
    once, when the wrapper is installed; and it sets the theme's
    `app.nav.addCacheBuster` flag when that object is there. */
module FetchCacheBust {
  import opened Wrappers
  import opened Strings

  /** The first argument of `fetch`: a string, or anything else (a `Request`
      or `URL` object), which the wrapper never rewrites. */
  datatype Target = UrlString(url: string) | OtherTarget(handle: nat)

  /** The second argument of `fetch`, passed on untouched. */
  datatype Options = NoOptions | OptionsObject(handle: nat)

  /** A call that reached the browser's own `fetch`. */
  datatype Request = Request(target: Target, options: Options)

  /** `app.nav` of the theme: absent (or falsy), or an object with the flag. */
  datatype Nav = Nav(addCacheBuster: bool)

  /** The theme's global `app`: undefined, or defined with its `nav` member. */
  datatype App = AppUndefined | AppDefined(nav: Option<Nav>)

  /** The separator put before `_=`: `&` when the URL already has a `?`. */
  function Separator(url: string): (sep: char)
    ensures sep == '&' <==> '?' in url
    ensures sep == '?' <==> '?' !in url
  {
    if '?' in url then '&' else '?'
  }

  /** The text put between the URL and the timestamp: the separator, then
      `_=`. */
  function Marker(url: string): (m: string)
    ensures |m| == 3 && m[0] == Separator(url) && m[1..] == "_="
  {
    if '?' in url then "&_=" else "?_="
  }

  /** The wrapper's rewrite of a target: a string URL containing `origin` gets
      the separator, `_=` and the timestamp appended; any other target is
      passed on as it is. */
  function Rewrite(target: Target, origin: string, timestamp: nat): (out: Target)
    ensures out.UrlString? <==> target.UrlString?
    ensures !(target.UrlString? && Contains(target.url, origin)) ==> out == target
    ensures target.UrlString? && Contains(target.url, origin) ==>
              && |out.url| == |target.url| + 3 + |NatToDecimal(timestamp)|
              && StartsWith(out.url, target.url)
              && out.url[|target.url|] == Separator(target.url)
              && out.url[|target.url| + 1..] == "_=" + NatToDecimal(timestamp)
  {
    match target
    case UrlString(url) =>
      if Contains(url, origin) then
        var busted := url + Marker(url) + NatToDecimal(timestamp);
        assert busted[..|url|] == url;
        assert busted[|url| + 1..] == "_=" + NatToDecimal(timestamp);
        UrlString(busted)
      else target
    case OtherTarget(_) => target
  }

  /** A same-origin string URL is rewritten to exactly the URL, the
      separator, `_=` and the timestamp. */
  lemma RewriteSameOrigin(url: string, origin: string, timestamp: nat)
    requires Contains(url, origin)
    ensures Rewrite(UrlString(url), origin, timestamp)
            == UrlString(url + Marker(url) + NatToDecimal(timestamp))
  {
  }

  /** The rewrite is not idempotent: a rewritten URL still contains the
      origin and now has a `?`, so rewriting it again appends `&_=` and the
      timestamp a second time. */
  lemma RewriteTwice(url: string, origin: string, timestamp: nat)
    requires Contains(url, origin)
    ensures var once := Rewrite(UrlString(url), origin, timestamp).url;
            Rewrite(UrlString(once), origin, timestamp).url == once + "&_=" + NatToDecimal(timestamp)
  {
    Busted(url, origin, timestamp);
    var once := Rewrite(UrlString(url), origin, timestamp).url;
    RewriteSameOrigin(once, origin, timestamp);
  }

  /** A URL without a `:`, such as the relative path `/data.csv`, cannot
      contain an origin with a scheme, so it is never rewritten. */
  lemma NoSchemeNotRewritten(url: string, origin: string, timestamp: nat)
    requires ':' in origin && ':' !in url
    ensures Rewrite(UrlString(url), origin, timestamp) == UrlString(url)
  {
    if Contains(url, origin) {
      ContainsChar(url, origin, ':');
    }
  }

  /** The two documented examples for an absolute same-origin URL (an
      origin is a scheme, host and port, so it holds no `?`). */
  lemma RewriteExamples(origin: string, timestamp: nat)
    requires '?' !in origin
    ensures Rewrite(UrlString(origin + "/data.csv"), origin, timestamp)
            == UrlString(origin + "/data.csv" + "?_=" + NatToDecimal(timestamp))
    ensures Rewrite(UrlString(origin + "/data.csv?x=1"), origin, timestamp)
            == UrlString(origin + "/data.csv?x=1" + "&_=" + NatToDecimal(timestamp))
  {
    var a := origin + "/data.csv";
    PrefixContained(origin, "/data.csv");
    assert '?' !in a by {
      forall k | 0 <= k < |a| ensures a[k] != '?' {
        if k < |origin| { assert a[k] == origin[k]; }
      }
    }
    RewriteSameOrigin(a, origin, timestamp);
    var b := origin + "/data.csv?x=1";
    PrefixContained(origin, "/data.csv?x=1");
    assert b[|b| - 4] == '?';
    RewriteSameOrigin(b, origin, timestamp);
  }

  /** A string contains its own prefix. */
  lemma PrefixContained(prefix: string, rest: string)
    ensures Contains(prefix + rest, prefix)
  {
    assert (prefix + rest)[..|prefix|] == prefix;
  }

  /** The URL the browser's own `fetch` receives through a chain of
      installed wrappers, given innermost first: the outermost (last
      installed) rewrites first and calls the one installed before it.
      Whatever the chain, a string stays a string and only grows at its
      end, and a target that is not a same-origin string passes through
      unchanged. */
  function Through(target: Target, origin: string, layers: seq<nat>): (out: Target)
    ensures out.UrlString? <==> target.UrlString?
    ensures !(target.UrlString? && Contains(target.url, origin)) ==> out == target
    ensures target.UrlString? ==> StartsWith(out.url, target.url)
    decreases |layers|
  {
    if layers == [] then target
    else
      var once := Rewrite(target, origin, layers[|layers| - 1]);
      var out := Through(once, origin, layers[..|layers| - 1]);
      assert target.UrlString? ==> out.url[..|target.url|] == once.url[..|target.url|];
      out
  }

  /** The `if (typeof app !== 'undefined' && app.nav)` step: the flag is
      set exactly when `app` is defined and has a `nav`; nothing else of
      `app` changes. */
  function FlagCacheBuster(app: App): (out: App)
    ensures app.AppDefined? && app.nav.Some? ==> out == AppDefined(Some(Nav(true)))
    ensures !(app.AppDefined? && app.nav.Some?) ==> out == app
  {
    match app
    case AppDefined(Some(nav)) => AppDefined(Some(nav.(addCacheBuster := true)))
    case _ => app
  }

  /** A page: its origin, the fetch wrappers installed on it (their
      timestamps, innermost first), the calls that reached the browser's own
      `fetch`, and the theme's `app` global. */
  class Page {
    const origin: string
    var layers: seq<nat>
    var sent: seq<Request>
    var app: App

    constructor (origin: string, app: App)
      ensures this.origin == origin && this.app == app
      ensures layers == [] && sent == []
    {
      this.origin := origin;
      this.app := app;
      layers := [];
      sent := [];
    }

    /** The `DOMContentLoaded` listener: take the timestamp `now` once,
        wrap the current `window.fetch`, and flag the theme's navigation. */
    method ContentLoaded(now: nat)
      modifies this
      ensures layers == old(layers) + [now]
      ensures app == FlagCacheBuster(old(app))
      ensures sent == old(sent)
    {
      layers := layers + [now];
      app := FlagCacheBuster(app);
    }

    /** A call of `window.fetch`: the browser's own `fetch` is called exactly
        once, with the target every installed wrapper has rewritten and with
        the options untouched; the wrappers and their timestamps stay as they
        are. */
    method Fetch(target: Target, options: Options)
      modifies this
      ensures sent == old(sent) + [Request(Through(target, origin, layers), options)]
      ensures layers == old(layers) && app == old(app)
    {
      sent := sent + [Request(Through(target, origin, layers), options)];
    }
  }

  /** With the one wrapper that the page-load listener installs, every call
      is rewritten with that wrapper's timestamp, whatever the call. */
  lemma OneWrapper(target: Target, origin: string, timestamp: nat)
    ensures Through(target, origin, [timestamp]) == Rewrite(target, origin, timestamp)
  {
  }

  /** If the listener ran twice, two wrappers would be chained and a
      same-origin URL would get both timestamps. */
  lemma TwoWrappers(url: string, origin: string, first: nat, second: nat)
    requires Contains(url, origin) && '?' !in url
    ensures Through(UrlString(url), origin, [first, second])
            == UrlString(url + "?_=" + NatToDecimal(second) + "&_=" + NatToDecimal(first))
  {
    ThroughTwo(UrlString(url), origin, first, second);
    var once := url + "?_=" + NatToDecimal(second);
    Busted(url, origin, second);
    RewriteSameOrigin(once, origin, first);
  }

  /** Two chained wrappers: the outer one rewrites first. */
  lemma ThroughTwo(target: Target, origin: string, first: nat, second: nat)
    ensures Through(target, origin, [first, second]) == Rewrite(Rewrite(target, origin, second), origin, first)
  {
    assert [first, second][..1] == [first];
    assert [first][..0] == [];
    var once := Rewrite(target, origin, second);
    assert Through(target, origin, [first, second]) == Through(once, origin, [first]);
    assert Through(once, origin, [first]) == Through(Rewrite(once, origin, first), origin, []);
  }

  /** A busted URL still contains the origin and now has a `?`. */
  lemma Busted(url: string, origin: string, timestamp: nat)
    requires Contains(url, origin)
    ensures var busted := url + Marker(url) + NatToDecimal(timestamp);
            && Rewrite(UrlString(url), origin, timestamp) == UrlString(busted)
            && Contains(busted, origin) && '?' in busted
  {
    var tail := Marker(url) + NatToDecimal(timestamp);
    var busted := url + tail;
    assert url + Marker(url) + NatToDecimal(timestamp) == busted;
    RewriteSameOrigin(url, origin, timestamp);
    ContainsAppend(url, tail, origin);
    if '?' in url {
      var k :| 0 <= k < |url| && url[k] == '?';
      assert busted[k] == '?';
    } else {
      assert busted[|url|] == '?';
    }
  }

  /** A client: on a page whose listener has run once at time `now`, a
      same-origin fetch reaches the browser with the busted URL, and a
      second fetch of the same URL carries the same timestamp. */
  method FetchTwiceClient(origin: string, now: nat)
    requires '?' !in origin
  {
    var page := new Page(origin, AppUndefined);
    page.ContentLoaded(now);
    var url := origin + "/data.csv";
    page.Fetch(UrlString(url), NoOptions);
    page.Fetch(UrlString(url), NoOptions);
    assert page.sent[0] == page.sent[1];
    RewriteExamples(origin, now);
    assert page.sent[0].target == UrlString(url + "?_=" + NatToDecimal(now));
  }
}
