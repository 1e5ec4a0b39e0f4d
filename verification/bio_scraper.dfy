/**
  The decisions of bio-scraper.py: where the cookies come from, how each
  is normalised for Selenium and injected (with one retry on a bare
  domain), how usernames are read, which pages count as login pages,
  which profiles match the word list, and which link is taken as the bio
  link. The driver and the environment are parameters.
 */
module BioScraper {
  import opened Wrappers
  import opened Text
  import opened Json

  /* ---------- load_cookies_from_env_or_file ---------- */

  /** What one of the cookie files gave: missing, unreadable or unparseable, or parsed JSON. */
  datatype CookieFile = Absent | Unreadable | Parsed(json: Value)

  /** The position of the first item holding a list (`|members|` when none does). */
  function FirstListMember(members: seq<(string, Value)>): (k: nat)
    ensures k <= |members|
    ensures k < |members| ==> members[k].1.Arr?
    ensures forall j :: 0 <= j < k ==> !members[j].1.Arr?
  {
    if members == [] then 0
    else if members[0].1.Arr? then 0
    else 1 + FirstListMember(members[1..])
  }

  /** The position of the first file that parsed as a list (`|files|` when none did). */
  function FirstListFile(files: seq<CookieFile>): (k: nat)
    ensures k <= |files|
    ensures k < |files| ==> files[k].Parsed? && files[k].json.Arr?
    ensures forall j :: 0 <= j < k ==> !(files[j].Parsed? && files[j].json.Arr?)
  {
    if files == [] then 0
    else if files[0].Parsed? && files[0].json.Arr? then 0
    else 1 + FirstListFile(files[1..])
  }

  /** The one cookie made from a bare session id. */
  function SessionCookie(raw: string): Value
  {
    Obj([("name", Str("sessionid")), ("value", Str(raw)), ("domain", Str(".instagram.com")), ("path", Str("/"))])
  }

  /** A raw secret that fails to parse is taken as a session id when it is long and has no '='. */
  predicate LooksLikeSessionId(raw: string)
  {
    |raw| > 10 && '=' !in raw
  }

  /**
    The cookies the environment variable supplies, or None to fall
    through: a parsed list as is, a parsed dict's first list-valued item,
    a bare session id when the text does not parse.
   */
  function EnvCookies(raw: Option<string>, parse: string -> Option<Value>): Option<seq<Value>>
  {
    if raw.None? || raw.value == "" then None
    else
      match parse(raw.value)
      case Some(Arr(items)) => Some(items)
      case Some(Obj(members)) =>
        var k := FirstListMember(members);
        if k < |members| then Some(members[k].1.items) else None
      case Some(_) => None
      case None => if LooksLikeSessionId(raw.value) then Some([SessionCookie(raw.value)]) else None
  }

  /**
    `load_cookies_from_env_or_file`, with the variable's text, the JSON
    parser and what each file gave passed in.
   */
  function LoadCookies(raw: Option<string>, parse: string -> Option<Value>, files: seq<CookieFile>): (r: Option<seq<Value>>)
    ensures EnvCookies(raw, parse).Some? ==> r == EnvCookies(raw, parse)
    ensures EnvCookies(raw, parse).None? && FirstListFile(files) < |files| ==>
      r == Some(files[FirstListFile(files)].json.items)
    ensures r.None? <==> EnvCookies(raw, parse).None? && FirstListFile(files) == |files|
  {
    var fromEnv := EnvCookies(raw, parse);
    if fromEnv.Some? then fromEnv
    else
      var k := FirstListFile(files);
      if k < |files| then Some(files[k].json.items) else None
  }

  /** The four shapes of the secret, and what each gives. */
  lemma EnvCookieShapes(raw: string, parse: string -> Option<Value>)
    requires raw != ""
    ensures parse(raw).Some? && parse(raw).value.Arr? ==> EnvCookies(Some(raw), parse) == Some(parse(raw).value.items)
    ensures parse(raw).Some? && parse(raw).value.Obj? ==>
      var members := parse(raw).value.members;
      EnvCookies(Some(raw), parse).Some? <==> exists j :: 0 <= j < |members| && members[j].1.Arr?
    ensures parse(raw).None? && LooksLikeSessionId(raw) ==> EnvCookies(Some(raw), parse) == Some([SessionCookie(raw)])
    ensures parse(raw).None? && !LooksLikeSessionId(raw) ==> EnvCookies(Some(raw), parse).None?
  {
  }

  /* ---------- normalize_cookie_for_selenium ---------- */

  /** The expiry: from "expires" whenever that key is present, from "expiry" only otherwise. */
  function Expiry(c: Dict): Option<int>
  {
    if "expires" in c then ToInt(c["expires"])
    else if "expiry" in c then ToInt(c["expiry"])
    else None
  }

  /**
    `normalize_cookie_for_selenium`: the name as given (None when
    missing), the value always as text ("" when missing), the domain and
    path with their defaults, and an int expiry when one converts.
   */
  function NormalizeForSelenium(c: Dict): (r: Dict)
    ensures r.Keys == {"name", "value", "domain", "path"} + (if Expiry(c).Some? then {"expiry"} else {})
    ensures r["name"] == Get(c, "name")
    ensures r["value"] == Str(PyStr(GetOr(c, "value", Str(""))))
    ensures "value" !in c ==> r["value"] == Str("")
    ensures "value" in c && c["value"].Str? ==> r["value"] == c["value"]
    ensures r["domain"] == GetOr(c, "domain", Str(".instagram.com"))
    ensures r["path"] == GetOr(c, "path", Str("/"))
    ensures "expiry" in r ==> r["expiry"] == Int(Expiry(c).value)
  {
    var cd := map[
      "name" := Get(c, "name"),
      "value" := Str(PyStr(GetOr(c, "value", Str("")))),
      "domain" := GetOr(c, "domain", Str(".instagram.com")),
      "path" := GetOr(c, "path", Str("/"))];
    match Expiry(c)
    case Some(e) => cd["expiry" := Int(e)]
    case None => cd
  }

  /** `normalize_cookie_for_selenium` as written: `cd` filled one field at a time. */
  method NormalizeCookie(c: Dict) returns (cd: Dict)
    ensures cd == NormalizeForSelenium(c)
  {
    cd := map["name" := Get(c, "name"), "value" := Str(PyStr(GetOr(c, "value", Str(""))))];
    var domain := GetOr(c, "domain", Str(".instagram.com"));
    cd := cd["domain" := domain];
    cd := cd["path" := GetOr(c, "path", Str("/"))];
    if "expires" in c {
      var e := ToInt(c["expires"]);
      if e.Some? {
        cd := cd["expiry" := Int(e.value)];
      }
    } else if "expiry" in c {
      var e := ToInt(c["expiry"]);
      if e.Some? {
        cd := cd["expiry" := Int(e.value)];
      }
    }
  }

  /** An "expires" that does not convert hides a valid "expiry". */
  lemma BadExpiresHidesExpiry(c: Dict)
    requires "expires" in c && ToInt(c["expires"]).None?
    ensures "expiry" !in NormalizeForSelenium(c)
  {
  }

  /* ---------- inject_cookies_into_driver ---------- */

  /**
    The copy tried after `add_cookie` fails: a domain starting with "."
    loses all its leading dots, everything else stays. None when the
    domain is not text, where the source raises and skips the cookie.
   */
  function RetryCookie(cookie: Dict): (r: Option<Dict>)
    ensures r.Some? <==> GetOr(cookie, "domain", Str("")).Str?
    ensures r.Some? ==> forall k :: k != "domain" ==> (k in r.value <==> k in cookie) && (k in cookie ==> r.value[k] == cookie[k])
    ensures r.Some? && "domain" in cookie ==>
      var d := cookie["domain"].s;
      && "domain" in r.value && r.value["domain"].Str?
      && (StartsWith(d, ".") ==> r.value["domain"].s == LStripChar(d, '.'))
      && (!StartsWith(d, ".") ==> r.value["domain"] == cookie["domain"])
  {
    match GetOr(cookie, "domain", Str(""))
    case Str(d) => Some(if StartsWith(d, ".") then cookie["domain" := Str(LStripChar(d, '.'))] else cookie)
    case _ => None
  }

  /** The retried domain never starts with a dot, and only dots were removed from its front. */
  lemma RetryDomainHasNoLeadingDot(cookie: Dict)
    requires "domain" in cookie && cookie["domain"].Str?
    ensures var d, d' := cookie["domain"].s, RetryCookie(cookie).value["domain"].s;
      && (d' == "" || d'[0] != '.')
      && |d'| <= |d| && d == d[..|d| - |d'|] + d'
      && forall i :: 0 <= i < |d| - |d'| ==> d[i] == '.'
  {
    var d := cookie["domain"].s;
    var d' := RetryCookie(cookie).value["domain"].s;
    if !StartsWith(d, ".") {
      assert d' == d;
      assert d == "" || d[0] != '.';
    }
    assert d == d[..|d| - |d'|] + d[|d| - |d'|..];
  }

  /**
    The driver's answer to `add_cookie`: for the `i`-th cookie of the
    list, on the first try or the retry, with the record tried.
   */
  type AddOracle = (nat, bool, Dict) -> bool

  /** Whether the `i`-th raw cookie ends up added. */
  predicate Injected(raw: Value, i: nat, accept: AddOracle)
  {
    && raw.Obj?
    && var cookie := NormalizeForSelenium(DictOf(raw.members));
    && Truthy(cookie["name"])
    && (accept(i, false, cookie) || (RetryCookie(cookie).Some? && accept(i, true, RetryCookie(cookie).value)))
  }

  /** How many of the first `n` cookies are added. */
  function CountInjected(cookies: seq<Value>, accept: AddOracle, n: nat): nat
    requires n <= |cookies|
  {
    if n == 0 then 0
    else CountInjected(cookies, accept, n - 1) + if Injected(cookies[n - 1], n - 1, accept) then 1 else 0
  }

  /** How many of the first `n` cookies are dicts with a truthy name. */
  function CountNamed(cookies: seq<Value>, n: nat): nat
    requires n <= |cookies|
  {
    if n == 0 then 0
    else
      var raw := cookies[n - 1];
      CountNamed(cookies, n - 1) + if raw.Obj? && Truthy(Get(DictOf(raw.members), "name")) then 1 else 0
  }

  /** Only a dict whose name is truthy can be added. */
  lemma InjectedIsNamed(raw: Value, i: nat, accept: AddOracle)
    requires Injected(raw, i, accept)
    ensures raw.Obj? && Truthy(Get(DictOf(raw.members), "name"))
  {
  }

  /** A cookie without a truthy name is never added: at most the named ones are counted. */
  lemma {:induction false} InjectedAreNamed(cookies: seq<Value>, accept: AddOracle, n: nat)
    requires n <= |cookies|
    ensures CountInjected(cookies, accept, n) <= CountNamed(cookies, n) <= n
  {
    if n > 0 {
      InjectedAreNamed(cookies, accept, n - 1);
      var raw := cookies[n - 1];
      if Injected(raw, n - 1, accept) {
        InjectedIsNamed(raw, n - 1, accept);
      }
    }
  }

  /**
    `inject_cookies_into_driver`: 0 for a missing or empty list, otherwise
    the number of cookies the driver accepted, on the first try or on the
    retry. Non-dict entries and nameless cookies are skipped.
   */
  method InjectCookies(cookieList: Option<seq<Value>>, accept: AddOracle) returns (added: nat)
    ensures cookieList.None? || cookieList.value == [] ==> added == 0
    ensures cookieList.Some? ==> added == CountInjected(cookieList.value, accept, |cookieList.value|)
    ensures cookieList.Some? ==> added <= |cookieList.value|
  {
    if cookieList.None? || cookieList.value == [] {
      return 0;
    }
    var cookies := cookieList.value;
    added := 0;
    var i := 0;
    while i < |cookies|
      invariant 0 <= i <= |cookies|
      invariant added == CountInjected(cookies, accept, i)
      invariant added <= i
    {
      var raw := cookies[i];
      if raw.Obj? {
        var cookie := NormalizeCookie(DictOf(raw.members));
        // the value is always text after normalisation, so only the name can be missing
        if Truthy(cookie["name"]) {
          if accept(i, false, cookie) {
            added := added + 1;
          } else {
            var retry := RetryCookie(cookie);
            if retry.Some? && accept(i, true, retry.value) {
              added := added + 1;
            }
          }
        }
      }
      i := i + 1;
    }
  }

  /* ---------- get_target_usernames and the loop of main ---------- */

  /** `[u.strip().lstrip("@") for u in pieces if u.strip()]` */
  function Handles(pieces: seq<string>): (r: seq<string>)
    ensures |r| <= |pieces|
    ensures forall i :: 0 <= i < |r| ==> r[i] == "" || r[i][0] != '@'
  {
    if pieces == [] then []
    else
      var t := Strip(pieces[0]);
      var rest := Handles(pieces[1..]);
      if t != "" then [LStripChar(t, '@')] + rest else rest
  }

  /** Usernames from a comma-separated text (an environment variable or the typed answer). */
  function HandlesFromList(text: string): seq<string>
  {
    Handles(Split(text, ','))
  }

  /** Usernames from the lines of usernames.txt. */
  function HandlesFromFile(text: string): seq<string>
  {
    Handles(Split(text, '\n'))
  }

  /**
    `get_target_usernames`: the first non-empty of the three variables,
    else usernames.txt when it exists, else the typed answer.
   */
  function TargetUsernames(env: seq<Option<string>>, file: Option<string>, typed: string): (r: seq<string>)
    requires |env| == 3
    ensures forall i :: 0 <= i < |r| ==> r[i] == "" || r[i][0] != '@'
  {
    var chosen := if env[0].Some? && env[0].value != "" then env[0]
      else if env[1].Some? && env[1].value != "" then env[1]
      else if env[2].Some? && env[2].value != "" then env[2]
      else None;
    if chosen.Some? then HandlesFromList(chosen.value)
    else if file.Some? then HandlesFromFile(file.value)
    else HandlesFromList(typed)
  }

  predicate SomeVariableSet(env: seq<Option<string>>)
  {
    exists k :: 0 <= k < |env| && env[k].Some? && env[k].value != ""
  }

  /** The value of the first variable that is set and non-empty. */
  function FirstSetVariable(env: seq<Option<string>>): (v: string)
    requires SomeVariableSet(env)
    ensures v != "" && exists k :: 0 <= k < |env| && env[k] == Some(v) && forall j :: 0 <= j < k ==> env[j].None? || env[j].value == ""
  {
    if env[0].Some? && env[0].value != "" then env[0].value
    else
      assert SomeVariableSet(env[1..]) by {
        var k :| 0 <= k < |env| && env[k].Some? && env[k].value != "";
        assert env[1..][k - 1] == env[k];
      }
      var v := FirstSetVariable(env[1..]);
      ghost var k :| 0 <= k < |env[1..]| && env[1..][k] == Some(v) && forall j :: 0 <= j < k ==> env[1..][j].None? || env[1..][j].value == "";
      assert env[k + 1] == Some(v);
      v
  }

  /** A set variable wins over usernames.txt and the typed answer. */
  lemma VariableWins(env: seq<Option<string>>, file: Option<string>, typed: string)
    requires |env| == 3 && SomeVariableSet(env)
    ensures TargetUsernames(env, file, typed) == HandlesFromList(FirstSetVariable(env))
  {
    var rest := env[1..];
    if !(env[0].Some? && env[0].value != "") {
      assert FirstSetVariable(env) == FirstSetVariable(rest);
      assert rest[0] == env[1];
      if !(env[1].Some? && env[1].value != "") {
        assert FirstSetVariable(rest) == FirstSetVariable(rest[1..]);
        assert rest[1..][0] == env[2];
      }
    }
  }

  /** With no variable set, an existing usernames.txt wins over the typed answer. */
  lemma FileWinsOverPrompt(env: seq<Option<string>>, file: string, typed: string, typed': string)
    requires |env| == 3 && !SomeVariableSet(env)
    ensures TargetUsernames(env, Some(file), typed) == TargetUsernames(env, Some(file), typed') == HandlesFromFile(file)
  {
    assert !(env[0].Some? && env[0].value != "");
    assert !(env[1].Some? && env[1].value != "");
    assert !(env[2].Some? && env[2].value != "");
  }

  /** The usernames `main` visits: stripped again, empty ones skipped. */
  function Visited(usernames: seq<string>): (r: seq<string>)
    ensures forall i :: 0 <= i < |r| ==> Stripped(r[i])
  {
    NonBlankStrippedAreStripped(usernames);
    NonBlankStripped(usernames)
  }

  /** An entry made only of '@' survives the split as "" and `main` skips it. */
  lemma AtOnlyEntrySkipped(entry: string)
    requires entry != "" && forall i :: 0 <= i < |entry| ==> entry[i] == '@'
    ensures HandlesFromList(entry) == [""]
    ensures Visited(HandlesFromList(entry)) == []
  {
    assert Stripped(entry);
    StripUnpadded(entry);
    SplitFree(entry, ',');
    assert Handles([entry][1..]) == [];
    assert LStripChar(entry, '@') == "";
    assert KeepLine("") == [];
    NonBlankStrippedCons("", []);
    assert [""] + [] == [""];
  }

  lemma HandlesCons(head: string, tail: seq<string>)
    ensures Handles([head] + tail) ==
      (if Strip(head) != "" then [LStripChar(Strip(head), '@')] else []) + Handles(tail)
  {
    assert ([head] + tail)[1..] == tail;
  }

  lemma {:induction false} HandlesKeeps(names: seq<string>)
    requires forall i :: 0 <= i < |names| ==> Stripped(names[i]) && names[i][0] != '@'
    ensures Handles(names) == names
  {
    if names != [] {
      var t, rest := names[0], names[1..];
      assert forall i :: 0 <= i < |rest| ==> Stripped(rest[i]) && rest[i][0] != '@' by {
        forall i | 0 <= i < |rest| ensures Stripped(rest[i]) && rest[i][0] != '@' {
          assert rest[i] == names[i + 1];
        }
      }
      HandlesKeeps(rest);
      HandleOfPlain(t);
      HeadTail(names);
      HandlesCons(t, rest);
    }
  }

  /** A stripped username without a leading `@` is its own handle. */
  lemma HandleOfPlain(t: string)
    requires Stripped(t) && t[0] != '@'
    ensures Strip(t) != "" && LStripChar(Strip(t), '@') == t
  {
    StripUnpadded(t);
  }

  /** Plain usernames joined with commas read back as the same list. */
  lemma HandlesFromListOfJoin(names: seq<string>)
    requires |names| >= 1
    requires forall i :: 0 <= i < |names| ==> Stripped(names[i]) && names[i][0] != '@' && ',' !in names[i]
    ensures HandlesFromList(Join(names, ',')) == names
  {
    SplitJoin(names, ',');
    HandlesKeeps(names);
  }

  /* ---------- save_debug: the file-name part ---------- */

  /** `name_prefix.replace("/", "_")` */
  function SafeDebugPrefix(name: string): (r: string)
    ensures |r| == |name| && '/' !in r
    ensures forall i :: 0 <= i < |r| ==> r[i] == (if name[i] == '/' then '_' else name[i])
  {
    seq(|name|, i requires 0 <= i < |name| => if name[i] == '/' then '_' else name[i])
  }

  lemma SafeDebugPrefixIdempotent(name: string)
    ensures SafeDebugPrefix(SafeDebugPrefix(name)) == SafeDebugPrefix(name)
  {
  }

  /* ---------- the login-page test of main ---------- */

  /** The title test of `main` (case-sensitive, and without the "Sign up" marker). */
  predicate LoginTitle(title: string)
  {
    Contains(title, "Log in") || Contains(title, "Login")
  }

  /** Text around a login title does not hide it. */
  lemma LoginTitleWithin(before: string, title: string, after: string)
    requires LoginTitle(title)
    ensures LoginTitle(before + title + after)
  {
    if Contains(title, "Log in") {
      ContainsWithin(before, title, after, "Log in");
    } else {
      ContainsWithin(before, title, after, "Login");
    }
  }

  /* ---------- the word-list match of main ---------- */

  /** The words `main` looks for. */
  const WordList: seq<string> := ["journalist", "reporter", "correspondent", "editor", "news",
    "columnist", "writer", "commentator", "blogger", "reviewer"]

  /** A word appears, case-folded, in the bio or in the link. */
  predicate Mentions(word: string, bio: string, link: string)
  {
    Contains(Lower(bio), Lower(word)) || Contains(Lower(link), Lower(word))
  }

  /** A capitalised "Journalist" anywhere in a bio matches the list: the test ignores case. */
  lemma CapitalisedWordMatches(before: string, after: string, link: string)
    ensures exists k :: 0 <= k < |WordList| && Mentions(WordList[k], before + "Journalist" + after, link)
  {
    var word := WordList[0];
    assert Lower(word) == word;
    assert Lower("Journalist") == word;
    LowerConcat(before, "Journalist");
    LowerConcat(before + "Journalist", after);
    assert StartsWith(word, word);
    ContainsWithin(Lower(before), word, Lower(after), word);
    assert Mentions(WordList[0], before + "Journalist" + after, link);
  }

  /** The `found` loop of `main`: true exactly when some word of the list is mentioned. */
  method MatchesWordList(words: seq<string>, bio: string, link: string) returns (found: bool)
    ensures found <==> exists k :: 0 <= k < |words| && Mentions(words[k], bio, link)
  {
    found := false;
    var i := 0;
    while i < |words|
      invariant 0 <= i <= |words|
      invariant forall k :: 0 <= k < i ==> !Mentions(words[k], bio, link)
    {
      var word := Lower(words[i]);
      if Contains(Lower(bio), word) || Contains(Lower(link), word) {
        found := true;
        break;
      }
      i := i + 1;
    }
  }

  /* ---------- the bio link of extract_bio_from_profile ---------- */

  const RedirectPrefix: string := "https://l.instagram.com/?u="

  /**
    The first of the page's href targets that goes through Instagram's
    redirector, or "" when none does (as when the page source cannot be
    read, which gives no targets).
   */
  method FirstRedirectLink(urls: seq<string>) returns (link: string)
    ensures link == "" <==> forall k :: 0 <= k < |urls| ==> !StartsWith(urls[k], RedirectPrefix)
    ensures link != "" ==>
      exists k :: 0 <= k < |urls| && urls[k] == link && StartsWith(link, RedirectPrefix)
        && (forall j :: 0 <= j < k ==> !StartsWith(urls[j], RedirectPrefix))
  {
    link := "";
    var i := 0;
    while i < |urls|
      invariant 0 <= i <= |urls|
      invariant forall k :: 0 <= k < i ==> !StartsWith(urls[k], RedirectPrefix)
    {
      if StartsWith(urls[i], RedirectPrefix) {
        link := urls[i];
        return;
      }
      i := i + 1;
    }
  }
}
