/**
  The decisions of followers-scraper.py around the harvesting loop: the
  cookie conversion for Playwright, the debug-file name, the login-page
  test, the followers-link choice, the target list, and how
  `scrape_followers_of` goes from the profile page to the loop.
 */
module FollowersScraper {
  import opened Wrappers
  import opened Text
  import opened Json
  import opened Anchors
  import opened Harvest

  /* ---------- cookies_to_playwright ---------- */

  const DefaultDomain: string := "www.instagram.com"

  /** The keys a Playwright cookie may carry. */
  const PlaywrightFields: set<string> := {"name", "value", "domain", "path", "expires", "httpOnly", "secure"}

  /** `c.get("domain") or c.get("host") or "www.instagram.com"`: the first truthy one. */
  function PlaywrightDomain(c: Dict): (r: Value)
    ensures Truthy(r)
    ensures Truthy(Get(c, "domain")) ==> r == Get(c, "domain")
    ensures !Truthy(Get(c, "domain")) && Truthy(Get(c, "host")) ==> r == Get(c, "host")
    ensures !Truthy(Get(c, "domain")) && !Truthy(Get(c, "host")) ==> r == Str(DefaultDomain)
  {
    if Truthy(Get(c, "domain")) then Get(c, "domain")
    else if Truthy(Get(c, "host")) then Get(c, "host")
    else Str(DefaultDomain)
  }

  /** The entries `cookies_to_playwright` decides on for one cookie; `None` leaves the key out. */
  datatype PlaywrightCookie = PlaywrightCookie(
    name: Value,
    value: Value,
    domain: Value,
    path: Option<Value>,
    expires: Option<int>,
    httpOnly: Option<bool>,
    secure: Option<bool>)

  /** The per-cookie decisions of `cookies_to_playwright`. */
  function Convert(c: Dict): PlaywrightCookie
  {
    var path := Get(c, "path");
    var expires := Get(c, "expires");
    var httpOnly := Get(c, "httpOnly");
    var secure := Get(c, "secure");
    PlaywrightCookie(
      Get(c, "name"), Get(c, "value"), PlaywrightDomain(c),
      if Truthy(path) then Some(path) else None,
      if Truthy(expires) && IsNumber(expires) then Some(NumberToInt(expires)) else None,
      if httpOnly != Null then Some(Truthy(httpOnly)) else None,
      if secure != Null then Some(Truthy(secure)) else None)
  }

  /** `d` with `k` set to the optional value, or `d` unchanged when there is none. */
  function PutOption(d: Dict, k: string, o: Option<Value>): (r: Dict)
    ensures r.Keys == if o.Some? then d.Keys + {k} else d.Keys
    ensures o.Some? ==> r[k] == o.value
    ensures forall j :: j in d && j != k ==> r[j] == d[j]
  {
    if o.Some? then d[k := o.value] else d
  }

  function IntOption(o: Option<int>): Option<Value>
  {
    if o.Some? then Some(Int(o.value)) else None
  }

  function BoolOption(o: Option<bool>): Option<Value>
  {
    if o.Some? then Some(Bool(o.value)) else None
  }

  /** The dict Playwright is given for one decided cookie. */
  function Layout(p: PlaywrightCookie): Dict
  {
    var required := map["name" := p.name, "value" := p.value, "domain" := p.domain];
    var withPath := PutOption(required, "path", p.path);
    var withExpires := PutOption(withPath, "expires", IntOption(p.expires));
    var withHttpOnly := PutOption(withExpires, "httpOnly", BoolOption(p.httpOnly));
    PutOption(withHttpOnly, "secure", BoolOption(p.secure))
  }

  /** Every entry of the record appears under its own key, and nothing else does. */
  lemma LayoutEntries(p: PlaywrightCookie)
    ensures var r := Layout(p);
      && r.Keys <= PlaywrightFields
      && "name" in r && "value" in r && "domain" in r
      && ("path" in r <==> p.path.Some?)
      && ("expires" in r <==> p.expires.Some?)
      && ("httpOnly" in r <==> p.httpOnly.Some?)
      && ("secure" in r <==> p.secure.Some?)
    ensures var r := Layout(p);
      && r["name"] == p.name && r["value"] == p.value && r["domain"] == p.domain
      && (p.path.Some? ==> r["path"] == p.path.value)
      && (p.expires.Some? ==> r["expires"] == Int(p.expires.value))
      && (p.httpOnly.Some? ==> r["httpOnly"] == Bool(p.httpOnly.value))
      && (p.secure.Some? ==> r["secure"] == Bool(p.secure.value))
  {
    var required := map["name" := p.name, "value" := p.value, "domain" := p.domain];
    var withPath := PutOption(required, "path", p.path);
    var withExpires := PutOption(withPath, "expires", IntOption(p.expires));
    var withHttpOnly := PutOption(withExpires, "httpOnly", BoolOption(p.httpOnly));
    assert Layout(p) == PutOption(withHttpOnly, "secure", BoolOption(p.secure));
  }

  /** One cookie as `cookies_to_playwright` rebuilds it. */
  function ToPlaywright(c: Dict): Dict
  {
    Layout(Convert(c))
  }

  /**
    The keys of a converted cookie: name, value and domain always; `path`
    exactly when truthy; `expires` exactly when truthy and numeric;
    `httpOnly` and `secure` exactly when not None; nothing else.
   */
  lemma ToPlaywrightKeys(c: Dict)
    ensures var r := ToPlaywright(c);
      && r.Keys <= PlaywrightFields
      && "name" in r && "value" in r && "domain" in r
      && ("path" in r <==> Truthy(Get(c, "path")))
      && ("expires" in r <==> Truthy(Get(c, "expires")) && IsNumber(Get(c, "expires")))
      && ("httpOnly" in r <==> Get(c, "httpOnly") != Null)
      && ("secure" in r <==> Get(c, "secure") != Null)
  {
    LayoutEntries(Convert(c));
  }

  /** Name and value are copied (None when missing) and the domain is the first truthy candidate. */
  lemma ToPlaywrightCopies(c: Dict)
    ensures var r := ToPlaywright(c);
      && "name" in r && r["name"] == Get(c, "name")
      && "value" in r && r["value"] == Get(c, "value")
      && "domain" in r && r["domain"] == PlaywrightDomain(c)
  {
    LayoutEntries(Convert(c));
  }

  /** The optional fields, when present: the path as given, the expiry as an int, the flags as bools. */
  lemma ToPlaywrightOptional(c: Dict)
    ensures var r := ToPlaywright(c);
      && ("path" in r ==> r["path"] == Get(c, "path"))
      && ("expires" in r ==> IsNumber(Get(c, "expires")) && r["expires"] == Int(NumberToInt(Get(c, "expires"))))
      && ("httpOnly" in r ==> r["httpOnly"] == Bool(Truthy(Get(c, "httpOnly"))))
      && ("secure" in r ==> r["secure"] == Bool(Truthy(Get(c, "secure"))))
  {
    LayoutEntries(Convert(c));
  }

  /**
    `cookies_to_playwright` over the parsed cookie list: one converted
    cookie per element, in the same order. An element that is not a dict
    has no `get`, so the AttributeError escapes and there is no result.
   */
  method CookiesToPlaywright(cookies: seq<Value>) returns (out: Option<seq<Dict>>)
    ensures out.None? <==> exists i :: 0 <= i < |cookies| && !cookies[i].Obj?
    ensures out.Some? ==> |out.value| == |cookies|
    ensures out.Some? ==> forall i {:trigger out.value[i]} :: 0 <= i < |cookies| ==>
      cookies[i].Obj? && out.value[i] == ToPlaywright(DictOf(cookies[i].members))
  {
    var converted: seq<Dict> := [];
    var i := 0;
    while i < |cookies|
      invariant 0 <= i <= |cookies|
      invariant |converted| == i
      invariant forall k :: 0 <= k < i ==> cookies[k].Obj?
      invariant forall k {:trigger converted[k]} :: 0 <= k < i ==>
        converted[k] == ToPlaywright(DictOf(cookies[k].members))
    {
      var c := cookies[i];
      if !c.Obj? {
        return None;
      }
      var cookie := ToPlaywright(DictOf(c.members));
      converted := converted + [cookie];
      assert converted[i] == cookie;
      i := i + 1;
    }
    out := Some(converted);
  }

  /* ---------- save_debug_html_png: the file-name part ---------- */

  /** The characters `[0-9A-Za-z._-]` that the debug-name rule keeps. */
  predicate FileNameChar(c: char)
  {
    '0' <= c <= '9' || 'A' <= c <= 'Z' || 'a' <= c <= 'z' || c == '.' || c == '_' || c == '-'
  }

  /** `re.sub(r'[^0-9A-Za-z._-]', '_', name)[:60]` */
  function SafeDebugName(name: string): (r: string)
    ensures |r| == if |name| < 60 then |name| else 60
    ensures forall i :: 0 <= i < |r| ==> FileNameChar(r[i])
    ensures forall i :: 0 <= i < |r| ==> FileNameChar(name[i]) ==> r[i] == name[i]
    ensures forall i :: 0 <= i < |r| ==> !FileNameChar(name[i]) ==> r[i] == '_'
  {
    var replaced := seq(|name|, i requires 0 <= i < |name| => if FileNameChar(name[i]) then name[i] else '_');
    if |replaced| <= 60 then replaced else replaced[..60]
  }

  /** A name the rule produced is left alone by it. */
  lemma SafeDebugNameIdempotent(name: string)
    ensures SafeDebugName(SafeDebugName(name)) == SafeDebugName(name)
  {
  }

  /* ---------- the login-page test ---------- */

  /** The title test of `scrape_followers_of` (case-sensitive, as written). */
  predicate LoginPageTitle(title: string)
  {
    Contains(title, "Log in") || Contains(title, "Login") || Contains(title, "Sign up")
  }

  /** Text around a login title does not hide it. */
  lemma LoginPageTitleWithin(before: string, title: string, after: string)
    requires LoginPageTitle(title)
    ensures LoginPageTitle(before + title + after)
  {
    if Contains(title, "Log in") {
      ContainsWithin(before, title, after, "Log in");
    } else if Contains(title, "Login") {
      ContainsWithin(before, title, after, "Login");
    } else {
      ContainsWithin(before, title, after, "Sign up");
    }
  }

  /* ---------- the target list of main ---------- */

  /** The comma-separated `TARGET_USERNAMES` as `main` reads it. */
  function TargetList(targets: string): (r: seq<string>)
    ensures forall i :: 0 <= i < |r| ==> Stripped(r[i]) && ',' !in r[i]
  {
    var pieces := Split(targets, ',');
    var r := NonBlankStripped(pieces);
    NonBlankStrippedAreStripped(pieces);
    TargetListPiecesFree(pieces);
    r
  }

  lemma {:induction false} TargetListPiecesFree(pieces: seq<string>)
    requires forall i :: 0 <= i < |pieces| ==> ',' !in pieces[i]
    ensures forall i :: 0 <= i < |NonBlankStripped(pieces)| ==> ',' !in NonBlankStripped(pieces)[i]
  {
    if pieces != [] {
      StripWithin(pieces[0]);
      TargetListPiecesFree(pieces[1..]);
    }
  }

  /** Usernames joined with commas read back as the same list. */
  lemma TargetListOfJoin(names: seq<string>)
    requires |names| >= 1
    requires forall i :: 0 <= i < |names| ==> Stripped(names[i]) && ',' !in names[i]
    ensures TargetList(Join(names, ',')) == names
  {
    SplitJoin(names, ',');
    NonBlankStrippedKeeps(names);
  }

  /* ---------- scrape_followers_of, from the profile page to the loop ---------- */

  /** Which followers link gets clicked: the exact href first, then a link showing "followers". */
  datatype LinkChoice = ExactHref | ByText | NotFound

  function LocateFollowersLink(exactMatches: nat, textMatches: nat): (r: LinkChoice)
    ensures r == ExactHref <==> exactMatches > 0
    ensures r == ByText <==> exactMatches == 0 && textMatches > 0
    ensures r == NotFound <==> exactMatches == 0 && textMatches == 0
  {
    if exactMatches > 0 then ExactHref else if textMatches > 0 then ByText else NotFound
  }

  /** What `scrape_followers_of` learns from the profile page before the loop. */
  datatype ProfilePage = ProfilePage(
    loaded: bool,         // `page.goto` returned
    title: Read<string>,  // `page.title()`
    exactLinks: nat,      // anchors whose href is exactly "/<target>/followers/"
    textLinks: nat,       // anchors whose text contains "followers"
    clicked: bool,        // locating and clicking the chosen link raised nothing
    dialogShown: bool)    // the dialog's list appeared within the wait

  datatype ScrapeResult = Failed | Done(keys: seq<string>, names: map<string, string>, rounds: nat)

  function TitleOf(page: ProfilePage): string
  {
    if page.title.Got? then page.title.value else ""
  }

  /** Every way `scrape_followers_of` returns False before it reaches the loop. */
  predicate Reachable(page: ProfilePage)
  {
    && page.loaded
    && !LoginPageTitle(TitleOf(page))
    && LocateFollowersLink(page.exactLinks, page.textLinks) != NotFound
    && page.clicked
    && page.dialogShown
  }

  /**
    `scrape_followers_of` without its I/O: it fails exactly when the page
    cannot be reached, looks like a login page, has no followers link,
    the click fails or the dialog does not appear; otherwise it runs the
    loop and returns what was collected.
   */
  method ScrapeFollowersOf(page: ProfilePage, render: nat -> seq<Anchor>, maxFollowers: int)
    returns (r: ScrapeResult)
    ensures r.Failed? <==> !Reachable(page)
    ensures r.Done? ==> Collected(r.keys, r.names) == Run(render, r.rounds)
    ensures r.Done? ==> FirstSeen(Collected(r.keys, r.names), Log(render, r.rounds))
    ensures r.Done? ==> !Continues(render, maxFollowers, r.rounds)
    ensures r.Done? ==> forall k :: 0 <= k < r.rounds ==> Continues(render, maxFollowers, k)
  {
    if !page.loaded {
      return Failed;
    }
    var title := TitleOf(page);
    if Contains(title, "Log in") || Contains(title, "Login") || Contains(title, "Sign up") {
      return Failed;
    }
    if LocateFollowersLink(page.exactLinks, page.textLinks) == NotFound || !page.clicked {
      return Failed;
    }
    if !page.dialogShown {
      return Failed;
    }
    var keys, names, rounds := CollectFollowers(render, maxFollowers);
    r := Done(keys, names, rounds);
  }
}
