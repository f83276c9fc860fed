/** The Cloud URL operations of CloudUiUtil: the merged URL list offered to
    the user, the `name - url` display text, the cloud version lookup and
    the `{wildcard}` test. The preference store is the stored string of one
    server type; the branding extension point supplies the default URL and
    the built-in list (None when the extension point has no list). */
module CloudUiUtil {
  import opened Base
  import opened Text
  import opened CloudModel
  import opened UrlPreferences
  import opened UrlOrdering

  const DisplaySeparator: string := " - "

  /** The names of a URL list (null included). */
  function NamesOf(urls: seq<CloudURL>): set<Option<string>> {
    set u | u in urls :: u.name
  }

  /** Selects the URLs whose name is not in `names`. */
  function NotNamedIn(names: set<Option<string>>): CloudURL -> bool {
    (u: CloudURL) => u.name !in names
  }

  /** The built-in URLs whose name is not in `names`, in order. */
  function Unshadowed(builtins: seq<CloudURL>, names: set<Option<string>>): (r: seq<CloudURL>)
    ensures forall b :: b in r <==> b in builtins && b.name !in names
    ensures r == Filter(builtins, NotNamedIn(names))
  {
    if |builtins| == 0 then []
    else
      (if builtins[0].name !in names then [builtins[0]] else [])
        + Unshadowed(builtins[1..], names)
  }

  /** The body of getUrls once the user-defined URLs are read: the
      user-defined URLs, then the built-in ones they do not shadow, sorted
      by name when there is a built-in list. The comparator dereferences
      names, so a null name among two or more URLs throws. */
  function MergeUrls(user: seq<CloudURL>, builtins: Option<seq<CloudURL>>): (r: Result<seq<CloudURL>>)
    ensures builtins.None? ==> r == Success(user)
    ensures r.Failure? <==>
      && builtins.Some?
      && |user| + |Unshadowed(builtins.value, NamesOf(user))| >= 2
      && exists u :: (u in user || u in builtins.value) && u.name.None?
    ensures r.Failure? ==> r.error == NullPointer
  {
    match builtins
    case None => Success(user)
    case Some(defaults) =>
      NullNameMerged(user, builtins);
      var all := user + Unshadowed(defaults, NamesOf(user));
      if |all| >= 2 && exists i :: 0 <= i < |all| && all[i].name.None? then Failure(NullPointer)
      else Success(SortByName(all))
  }

  /** A null-named built-in URL is dropped only when a user-defined URL is
      null-named too, so a null name is merged exactly when one of the two
      lists has one. */
  lemma NullNameMerged(user: seq<CloudURL>, builtins: Option<seq<CloudURL>>)
    requires builtins.Some?
    ensures var all := user + Unshadowed(builtins.value, NamesOf(user));
      (exists i :: 0 <= i < |all| && all[i].name.None?)
        <==> exists u :: (u in user || u in builtins.value) && u.name.None?
  {
    var shown := Unshadowed(builtins.value, NamesOf(user));
    var all := user + shown;
    forall u | (u in user || u in builtins.value) && u.name.None?
      ensures exists i :: 0 <= i < |all| && all[i].name.None?
    {
      var w := if u in user || None !in NamesOf(user) then u
        else var v :| v in user && v.name == None; v;
      assert w in all;
      var i :| 0 <= i < |all| && all[i] == w;
      assert all[i].name.None?;
    }
    forall i | 0 <= i < |all| && all[i].name.None?
      ensures exists u :: (u in user || u in builtins.value) && u.name.None?
    {
      var w := all[i];
      assert w in user || w in shown;
      assert (w in user || w in builtins.value) && w.name.None?;
    }
    assert all == user + Unshadowed(builtins.value, NamesOf(user));
  }

  /** getUrls: reading the stored URLs throws IllegalArgumentException for
      an unknown version name; merging throws NullPointerException for a
      null name. */
  function GetUrls(stored: string, builtins: Option<seq<CloudURL>>): (r: Result<seq<CloudURL>>)
    ensures r.Failure? <==>
      Decode(stored).Failure? || MergeUrls(Decode(stored).value, builtins).Failure?
    ensures Decode(stored).Failure? ==> r.Failure? && r.error.IllegalArgument?
    ensures r.Failure? && Decode(stored).Success? ==> r.error == NullPointer
  {
    match Decode(stored)
    case Failure(e) => Failure(e)
    case Success(user) => MergeUrls(user, builtins)
  }

  /** What getUrls returns: every user-defined URL; a built-in URL exactly
      when no user-defined URL has its name; nothing else, each as often as
      it occurs in those two sources; ordered by case-insensitive name and
      stable among equal names when the built-in list exists, in stored
      order when it does not. */
  lemma GetUrlsContents(stored: string, builtins: Option<seq<CloudURL>>)
    requires GetUrls(stored, builtins).Success?
    ensures var r := GetUrls(stored, builtins).value;
      var user := Decode(stored).value;
      && Decode(stored).Success?
      && (forall u :: u in user ==> u in r)
      && (builtins.None? ==> r == user)
      && (builtins.Some? ==>
            var shown := Unshadowed(builtins.value, NamesOf(user));
            && (forall b :: b in builtins.value && b.name !in NamesOf(user) ==> b in r)
            && (forall v :: v in r ==> v in user || (v in builtins.value && v.name !in NamesOf(user)))
            && multiset(r) == multiset(user) + multiset(shown)
            && SortedByName(r)
            && forall key :: Filter(r, SameFoldedName(key)) == Filter(user + shown, SameFoldedName(key)))
  {
    var user := Decode(stored).value;
    if builtins.Some? {
      var all := user + Unshadowed(builtins.value, NamesOf(user));
      SortByNamePermutes(all);
      SortByNameSorted(all);
      forall key ensures Filter(SortByName(all), SameFoldedName(key)) == Filter(all, SameFoldedName(key)) {
        SortByNameStable(all, key);
      }
      var r := SortByName(all);
      forall v | v in all ensures v in r {
        assert v in multiset(all);
      }
      forall v | v in r ensures v in all {
        assert v in multiset(r);
      }
    }
  }

  /** getAllUrls: the default URL, then the getUrls list. */
  function GetAllUrls(defaultUrl: CloudURL, stored: string, builtins: Option<seq<CloudURL>>): (r: Result<seq<CloudURL>>)
    ensures r.Success? <==> GetUrls(stored, builtins).Success?
    ensures r.Success? ==>
      |r.value| == 1 + |GetUrls(stored, builtins).value|
      && r.value[0] == defaultUrl
      && r.value[1..] == GetUrls(stored, builtins).value
  {
    match GetUrls(stored, builtins)
    case Failure(e) => Failure(e)
    case Success(urls) => Success([defaultUrl] + urls)
  }

  /** getUrlFromDisplayText: the text after the last " - ", or the whole
      text when there is none; null stays null. */
  function UrlFromDisplayText(displayText: Option<string>): (r: Option<string>)
    ensures displayText.None? ==> r.None?
    ensures displayText.Some? ==> r.Some?
    ensures displayText.Some? && (forall i :: !OccursAt(displayText.value, DisplaySeparator, i))
      ==> r == displayText
    ensures displayText.Some? ==>
      forall p ::
        (OccursAt(displayText.value, DisplaySeparator, p)
          && forall i :: p < i ==> !OccursAt(displayText.value, DisplaySeparator, i))
        ==> r == Some(displayText.value[p + 3..])
  {
    match displayText
    case None => None
    case Some(text) =>
      var pos := LastIndexOf(text, DisplaySeparator);
      if pos >= 0 then Some(text[pos + 3..]) else displayText
  }

  /** getDisplayTextFromUrl over the getAllUrls list: `name - url` for the
      first listed URL equal to `url`, otherwise `url` itself. A listed URL
      that is null throws when it is reached. */
  function DisplayTextFromUrl(url: Option<string>, allUrls: seq<CloudURL>): (r: Result<Option<string>>)
    ensures (forall u :: u in allUrls ==> u.url.Some? && u.url != url) ==> r == Success(url)
    ensures r.Success? && r.value != url ==>
      && url.Some?
      && exists i ::
           0 <= i < |allUrls| && allUrls[i].url == url
           && r.value == Some(NullText(allUrls[i].name) + DisplaySeparator + url.value)
           && forall j :: 0 <= j < i ==> allUrls[j].url != url
    ensures forall i ::
      (0 <= i < |allUrls| && url.Some? && allUrls[i].url == url
        && forall j :: 0 <= j < i ==> allUrls[j].url.Some? && allUrls[j].url != url)
      ==> r == Success(Some(NullText(allUrls[i].name) + DisplaySeparator + url.value))
    ensures forall i ::
      (0 <= i < |allUrls| && allUrls[i].url.None?
        && forall j :: 0 <= j < i ==> allUrls[j].url.Some? && allUrls[j].url != url)
      ==> r == Failure(NullPointer)
    ensures r.Failure? ==>
      r.error == NullPointer
      && exists i ::
           0 <= i < |allUrls| && allUrls[i].url.None?
           && forall j :: 0 <= j < i ==> allUrls[j].url.Some? && allUrls[j].url != url
  {
    if |allUrls| == 0 then Success(url)
    else if allUrls[0].url.None? then Failure(NullPointer)
    else if url.Some? && allUrls[0].url.value == url.value then
      Success(Some(NullText(allUrls[0].name) + DisplaySeparator + url.value))
    else
      var r := DisplayTextFromUrl(url, allUrls[1..]);
      DisplayTextShift(url, allUrls, r);
      r
  }

  lemma DisplayTextShift(url: Option<string>, allUrls: seq<CloudURL>, r: Result<Option<string>>)
    requires |allUrls| > 0 && allUrls[0].url.Some? && allUrls[0].url != url
    requires r.Success? && r.value != url ==>
      && url.Some?
      && exists i ::
           0 <= i < |allUrls[1..]| && allUrls[1..][i].url == url
           && r.value == Some(NullText(allUrls[1..][i].name) + DisplaySeparator + url.value)
           && forall j :: 0 <= j < i ==> allUrls[1..][j].url != url
    requires r.Failure? ==>
      exists i ::
        0 <= i < |allUrls[1..]| && allUrls[1..][i].url.None?
        && forall j :: 0 <= j < i ==> allUrls[1..][j].url.Some? && allUrls[1..][j].url != url
    ensures r.Success? && r.value != url ==>
      exists i ::
        0 <= i < |allUrls| && allUrls[i].url == url
        && r.value == Some(NullText(allUrls[i].name) + DisplaySeparator + url.value)
        && forall j :: 0 <= j < i ==> allUrls[j].url != url
    ensures r.Failure? ==>
      exists i ::
        0 <= i < |allUrls| && allUrls[i].url.None?
        && forall j :: 0 <= j < i ==> allUrls[j].url.Some? && allUrls[j].url != url
  {
    var tail := allUrls[1..];
    if r.Success? && r.value != url {
      var i :| 0 <= i < |tail| && tail[i].url == url
        && r.value == Some(NullText(tail[i].name) + DisplaySeparator + url.value)
        && forall j :: 0 <= j < i ==> tail[j].url != url;
      assert allUrls[i + 1] == tail[i];
      assert forall j :: 0 < j < i + 1 ==> allUrls[j] == tail[j - 1];
    }
    if r.Failure? {
      var i :| 0 <= i < |tail| && tail[i].url.None?
        && forall j :: 0 <= j < i ==> tail[j].url.Some? && tail[j].url != url;
      assert allUrls[i + 1] == tail[i];
      assert forall j :: 0 < j < i + 1 ==> allUrls[j] == tail[j - 1];
    }
  }

  /** The separator occurs in `" - " + url` only at its start: the url can
      be recovered from a display text built from it. */
  predicate SeparatorOnlyAtStart(url: string) {
    forall i :: 0 < i <= |url| ==> !OccursAt(DisplaySeparator + url, DisplaySeparator, i)
  }

  lemma LastSeparatorAfterName(name: string, url: string)
    requires SeparatorOnlyAtStart(url)
    ensures var t := name + DisplaySeparator + url;
      OccursAt(t, DisplaySeparator, |name|)
      && forall i :: |name| < i ==> !OccursAt(t, DisplaySeparator, i)
  {
    var w := DisplaySeparator + url;
    var t := name + DisplaySeparator + url;
    assert t == name + w;
    OccursAtAppend(name, w, DisplaySeparator, 0);
    assert OccursAt(w, DisplaySeparator, 0);
    forall i | |name| < i ensures !OccursAt(t, DisplaySeparator, i) {
      OccursAtAppend(name, w, DisplaySeparator, i - |name|);
    }
  }

  /** getUrlFromDisplayText inverts getDisplayTextFromUrl: whether a listed
      URL matched (text `name - url`) or not (text `url`), the url comes
      back, provided " - " occurs in " - " + url only at its start. */
  lemma DisplayTextRoundTrip(url: string, allUrls: seq<CloudURL>)
    requires SeparatorOnlyAtStart(url)
    requires DisplayTextFromUrl(Some(url), allUrls).Success?
    ensures UrlFromDisplayText(DisplayTextFromUrl(Some(url), allUrls).value) == Some(url)
  {
    var t := DisplayTextFromUrl(Some(url), allUrls).value;
    if t == Some(url) {
      forall i ensures !OccursAt(url, DisplaySeparator, i) {
        if i >= 0 {
          OccursAtAppend(DisplaySeparator, url, DisplaySeparator, i);
        }
      }
    } else {
      var i :| 0 <= i < |allUrls| && allUrls[i].url == Some(url)
        && t == Some(NullText(allUrls[i].name) + DisplaySeparator + url);
      var name := NullText(allUrls[i].name);
      LastSeparatorAfterName(name, url);
      assert (name + DisplaySeparator + url)[|name| + 3..] == url;
    }
  }

  /** A listed URL that settles the version: its url is `actual` and its
      version is set. */
  predicate GivesVersion(u: CloudURL, actual: Option<string>) {
    actual.Some? && u.url == actual && u.version.Some?
  }

  /** getCloudVersion, with the server's getAllUrls list passed in (None
      when the server is null): the version of the first listed URL whose
      url equals the url in the display text and whose version is set;
      None when there is none. */
  method CloudVersionOf(displayText: Option<string>, allUrls: Option<seq<CloudURL>>)
    returns (version: Option<CloudVersion>)
    ensures allUrls.None? ==> version.None?
    ensures version.Some? ==>
      && allUrls.Some?
      && exists i ::
           0 <= i < |allUrls.value|
           && GivesVersion(allUrls.value[i], UrlFromDisplayText(displayText))
           && allUrls.value[i].version == version
           && forall j :: 0 <= j < i ==> !GivesVersion(allUrls.value[j], UrlFromDisplayText(displayText))
    ensures version.None? && allUrls.Some? ==>
      forall i :: 0 <= i < |allUrls.value| ==> !GivesVersion(allUrls.value[i], UrlFromDisplayText(displayText))
  {
    version := None;
    if allUrls.None? {
      return;
    }
    var urls := allUrls.value;
    var actual := UrlFromDisplayText(displayText);
    if actual.Some? {
      var i := 0;
      while i < |urls|
        invariant 0 <= i <= |urls|
        invariant version.None?
        invariant forall j :: 0 <= j < i ==> !GivesVersion(urls[j], actual)
      {
        if urls[i].url == actual {
          version := urls[i].version;
          if version.Some? {
            return;
          }
        }
        i := i + 1;
      }
    }
  }

  /** The wildcard test of getWildcardUrl: no wildcard (None) when the url
      has no "{", otherwise the text between the first "{" and the first
      "}". A null url throws NullPointerException; a missing "}", or a first
      "}" before the first "{", makes substring throw. */
  function WildcardOf(url: Option<string>): (r: Result<Option<string>>)
    ensures url.None? ==> r == Failure(NullPointer)
    ensures url.Some? && '{' !in url.value ==> r == Success(None)
    ensures url.Some? && '{' in url.value ==> r != Success(None)
    ensures url.Some? && r.Failure? ==> r.error == IndexOutOfBounds
    ensures url.Some? && '{' in url.value ==>
      var s := url.value;
      (r.Failure? <==>
        '}' !in s || exists i :: 0 <= i < |s| && s[i] == '{' && '{' !in s[..i] && '}' in s[..i])
    ensures r.Success? && r.value.Some? ==>
      url.Some? && var s := url.value; var w := r.value.value;
      exists i :: 0 <= i && i + |w| + 2 <= |s| && s[i] == '{' && s[i + 1..i + 1 + |w|] == w
        && s[i + 1 + |w|] == '}' && '{' !in s[..i] && '}' !in s[..i + 1 + |w|]
  {
    if url.None? then Failure(NullPointer)
    else
      var s := url.value;
      IndexOfChar(s, '{');
      IndexOfChar(s, '}');
      if !Contains(s, "{") then Success(None)
      else
        var start := IndexOf(s, "{");
        var end := IndexOf(s, "}");
        if end < start + 1 then Failure(IndexOutOfBounds)
        else
          assert s[start + 1..end] == s[start + 1..start + 1 + |s[start + 1..end]|];
          assert s[..end] == s[..start + 1 + |s[start + 1..end]|];
          Success(Some(s[start + 1..end]))
  }

  /** The wildcard of a template `a{w}b` is `w`, when `a` holds no brace
      and `w` no closing brace. */
  lemma WildcardOfTemplate(a: string, w: string, b: string)
    requires '{' !in a && '}' !in a && '}' !in w
    ensures WildcardOf(Some(a + "{" + w + "}" + b)) == Success(Some(w))
  {
    var s := a + "{" + w + "}" + b;
    assert s == a + "{" + (w + "}" + b);
    IndexOfAfterPart(a, "{", w + "}" + b);
    assert s == (a + "{" + w) + "}" + b;
    assert '}' !in a + "{" + w;
    IndexOfAfterPart(a + "{" + w, "}", b);
    assert s[|a| + 1..|a| + 1 + |w|] == w;
  }

  /** The values the TargetURLDialog returns when the user confirms it. */
  datatype DialogChoice = DialogChoice(name: Option<string>, url: Option<string>)

  /** getWildcardUrl, with the dialog as the user's choice: None for a
      cancelled dialog. The dialog is only opened for a url with a
      wildcard; its result becomes a user-defined URL without a version. */
  function WildcardUrl(cloudUrl: CloudURL, dialog: Option<DialogChoice>): (r: Result<Option<CloudURL>>)
    ensures cloudUrl.url.Some? && '{' !in cloudUrl.url.value ==> r == Success(None)
    ensures r.Success? && r.value.Some? ==>
      WildcardOf(cloudUrl.url).Success? && WildcardOf(cloudUrl.url).value.Some?
      && dialog.Some?
      && r.value.value == CloudURL(dialog.value.name, dialog.value.url, true, None)
    ensures r.Failure? <==> WildcardOf(cloudUrl.url).Failure?
    ensures WildcardOf(cloudUrl.url).Success? && WildcardOf(cloudUrl.url).value.Some? ==>
      r == Success(if dialog.Some? then Some(CloudURL(dialog.value.name, dialog.value.url, true, None)) else None)
  {
    match WildcardOf(cloudUrl.url)
    case Failure(e) => Failure(e)
    case Success(None) => Success(None)
    case Success(Some(_)) =>
      match dialog
      case None => Success(None)
      case Some(choice) => Success(Some(CloudURL(choice.name, choice.url, true, None)))
  }
}
