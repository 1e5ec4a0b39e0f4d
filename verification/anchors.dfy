/**
  What the followers dialog's links yield: the username parsed from an
  anchor's href (`extract_user_from_href`) and the display name taken from
  its inner text.
 */
module Anchors {
  import opened Wrappers
  import opened Text

  /**
    `extract_user_from_href`: the one path segment of "/name" or "/name/";
    None for a missing or empty href, for "/" alone and for any other path.
   */
  function UserFromHref(href: Option<string>): (r: Option<string>)
    ensures r.Some? ==> r.value != "" && '/' !in r.value
  {
    if href.None? || href.value == "" then None
    else
      var h := href.value;
      if h[0] != '/' then None
      else
        var segment := if |h| >= 2 && h[|h| - 1] == '/' then h[1..|h| - 1] else h[1..];
        if segment != "" && '/' !in segment then Some(segment) else None
  }

  /** The two href shapes that name a user, and nothing else, give that user. */
  lemma UserFromHrefExactly(href: Option<string>, u: string)
    ensures UserFromHref(href) == Some(u) <==>
      u != "" && '/' !in u && (href == Some("/" + u) || href == Some("/" + u + "/"))
  {
    if u != "" && '/' !in u {
      if href == Some("/" + u) {
        assert href.value[1..] == u;
        assert href.value[|href.value| - 1] == u[|u| - 1];
      } else if href == Some("/" + u + "/") {
        assert href.value[1..|href.value| - 1] == u;
      }
    }
    if UserFromHref(href) == Some(u) {
      var h := href.value;
      if |h| >= 2 && h[|h| - 1] == '/' {
        assert h == "/" + h[1..|h| - 1] + "/";
      } else {
        assert h == "/" + h[1..];
      }
    }
  }

  /**
    The display name read from an anchor's inner text: the text is
    stripped, split into lines, each line stripped, blank lines dropped,
    and the second remaining line kept ("" when there are fewer than two).
   */
  function DisplayName(text: string): (r: string)
    ensures r == "" || Stripped(r)
  {
    var parts := NonBlankStripped(Split(Strip(text), '\n'));
    NonBlankStrippedAreStripped(Split(Strip(text), '\n'));
    if |parts| > 1 then parts[1] else ""
  }

  lemma SpaceFrontKeepsLines(c: char, x: string)
    requires IsSpace(c)
    ensures NonBlankStripped(Split([c] + x, '\n')) == NonBlankStripped(Split(x, '\n'))
  {
    var r := Split(x, '\n');
    var r' := Split([c] + x, '\n');
    assert ([c] + x)[1..] == x;
    if c == '\n' {
      assert r' == [""] + r;
      assert KeepLine("") == [];
      NonBlankStrippedCons("", r);
    } else {
      assert r' == [[c] + r[0]] + r[1..];
      StripSpaceFront(c, r[0]);
      NonBlankStrippedCons([c] + r[0], r[1..]);
      assert r == [r[0]] + r[1..];
      NonBlankStrippedCons(r[0], r[1..]);
    }
  }

  lemma SpaceBackKeepsLines(x: string, c: char)
    requires IsSpace(c)
    ensures NonBlankStripped(Split(x + [c], '\n')) == NonBlankStripped(Split(x, '\n'))
  {
    var r := Split(x, '\n');
    var init, last := r[..|r| - 1], r[|r| - 1];
    assert r == init + [last];
    if c == '\n' {
      SplitSnocSep(x, '\n');
      assert KeepLine("") == [];
      NonBlankStrippedSnoc(r, "");
    } else {
      SplitSnocOther(x, c, '\n');
      StripSpaceBack(last, c);
      NonBlankStrippedSnoc(init, last);
      NonBlankStrippedSnoc(init, last + [c]);
    }
  }

  lemma {:induction false} LeadingSpaceKeepsLines(w: string, x: string)
    requires AllSpace(w)
    ensures NonBlankStripped(Split(w + x, '\n')) == NonBlankStripped(Split(x, '\n'))
  {
    if w == [] {
      assert w + x == x;
    } else {
      var w' := w[1..];
      assert AllSpace(w') by {
        forall i | 0 <= i < |w'| ensures IsSpace(w'[i]) {
          assert w'[i] == w[i + 1];
        }
      }
      assert w + x == [w[0]] + (w' + x);
      SpaceFrontKeepsLines(w[0], w' + x);
      LeadingSpaceKeepsLines(w', x);
    }
  }

  lemma {:induction false} TrailingSpaceKeepsLines(x: string, w: string)
    requires AllSpace(w)
    ensures NonBlankStripped(Split(x + w, '\n')) == NonBlankStripped(Split(x, '\n'))
  {
    if w == [] {
      assert x + w == x;
    } else {
      var w' := w[..|w| - 1];
      assert x + w == (x + w') + [w[|w| - 1]];
      SpaceBackKeepsLines(x + w', w[|w| - 1]);
      TrailingSpaceKeepsLines(x, w');
    }
  }

  lemma SurroundingSpaceKeepsLines(lead: string, m: string, trail: string)
    requires AllSpace(lead) && AllSpace(trail)
    ensures NonBlankStripped(Split(lead + (m + trail), '\n')) == NonBlankStripped(Split(m, '\n'))
  {
    LeadingSpaceKeepsLines(lead, m + trail);
    TrailingSpaceKeepsLines(m, trail);
  }

  lemma StripKeepsLines(text: string)
    ensures NonBlankStripped(Split(Strip(text), '\n')) == NonBlankStripped(Split(text, '\n'))
  {
    var lead, trail := StripSurround(text);
    SurroundingSpaceKeepsLines(lead, Strip(text), trail);
  }

  /**
    Stripping the whole text before splitting it changes nothing: the
    display name is the second non-blank stripped line of the text itself.
   */
  lemma DisplayNameIsSecondLine(text: string)
    ensures var parts := NonBlankStripped(Split(text, '\n'));
      DisplayName(text) == if |parts| > 1 then parts[1] else ""
  {
    StripKeepsLines(text);
  }

  /** What reading one attribute of a rendered element gave: a value, or an exception. */
  datatype Read<T> = Raised | Got(value: T)

  /** One `a[href^="/"]` element of the followers dialog, as one pass rendered it. */
  datatype Anchor = Anchor(href: Read<Option<string>>, text: Read<string>)

  /** The username an anchor yields: none when its href cannot be read or does not parse. */
  function UserOf(a: Anchor): Option<string>
  {
    if a.href.Raised? then None else UserFromHref(a.href.value)
  }

  /** The display name recorded for an anchor: "" when its inner text cannot be read. */
  function NameOf(a: Anchor): string
  {
    if a.text.Raised? then "" else DisplayName(a.text.value)
  }
}
