/** The preference-string form of the user-defined Cloud URLs of one server
    type: each user-defined URL is written as `name,url[,version]` followed
    by `||`. The preference store itself is the single string passed in and
    returned here. */
module UrlPreferences {
  import opened Base
  import opened Text
  import opened CloudModel
  import opened UrlOrdering

  const EntryTerminator: string := "||"
  const FieldSeparator: string := ","

  /** Selects the user-defined URLs. */
  function IsUserDefined(): CloudURL -> bool {
    (u: CloudURL) => u.userDefined
  }

  /** The user-defined URLs of a list, in list order. */
  function UserDefined(urls: seq<CloudURL>): (r: seq<CloudURL>)
    ensures |r| <= |urls|
    ensures forall u :: u in r <==> u in urls && u.userDefined
    ensures r == Filter(urls, IsUserDefined())
  {
    if |urls| == 0 then []
    else (if urls[0].userDefined then [urls[0]] else []) + UserDefined(urls[1..])
  }

  /** The comma-separated fields written for one URL: name, url, and the
      version name when a version is set. */
  function EntryFields(u: CloudURL): (f: seq<string>)
    ensures 2 <= |f| <= 3
  {
    [NullText(u.name), NullText(u.url)]
      + (if u.version.Some? then [VersionName(u.version.value)] else [])
  }

  function EntryText(u: CloudURL): string {
    Join(EntryFields(u), FieldSeparator)
  }

  /** storeUserDefinedUrls: the preference value written for a URL list. */
  function Encode(urls: seq<CloudURL>): string {
    if |urls| == 0 then ""
    else
      (if urls[0].userDefined then EntryText(urls[0]) + EntryTerminator else "")
        + Encode(urls[1..])
  }

  function EntryTexts(urls: seq<CloudURL>): (r: seq<string>)
    ensures |r| == |urls| && forall i :: 0 <= i < |urls| ==> r[i] == EntryText(urls[i])
  {
    if |urls| == 0 then [] else [EntryText(urls[0])] + EntryTexts(urls[1..])
  }

  /** The stored value holds exactly the user-defined URLs, in list order,
      each followed by `||`: joined with `||` and with an empty part after
      the last terminator. */
  lemma {:induction false} EncodeIsTerminatedEntries(urls: seq<CloudURL>)
    ensures Encode(urls) == Join(EntryTexts(UserDefined(urls)) + [""], EntryTerminator)
  {
    if |urls| > 0 {
      EncodeIsTerminatedEntries(urls[1..]);
      var rest := EntryTexts(UserDefined(urls[1..])) + [""];
      if urls[0].userDefined {
        assert UserDefined(urls) == [urls[0]] + UserDefined(urls[1..]);
        assert EntryTexts(UserDefined(urls)) + [""] == [EntryText(urls[0])] + rest;
        assert ([EntryText(urls[0])] + rest)[1..] == rest;
      } else {
        assert UserDefined(urls) == UserDefined(urls[1..]);
      }
    }
  }

  lemma {:induction false} UserDefinedIdempotent(urls: seq<CloudURL>)
    ensures UserDefined(UserDefined(urls)) == UserDefined(urls)
  {
    if |urls| > 0 {
      UserDefinedIdempotent(urls[1..]);
      var tail := UserDefined(urls[1..]);
      if urls[0].userDefined {
        var r := [urls[0]] + tail;
        assert UserDefined(urls) == r;
        assert r[0] == urls[0] && r[1..] == tail;
        assert UserDefined(r) == [urls[0]] + UserDefined(tail);
      } else {
        assert UserDefined(urls) == tail;
      }
    }
  }

  /** Encoding ignores the URLs that are not user-defined. */
  lemma EncodeUserDefinedOnly(urls: seq<CloudURL>)
    ensures Encode(urls) == Encode(UserDefined(urls))
  {
    EncodeIsTerminatedEntries(urls);
    EncodeIsTerminatedEntries(UserDefined(urls));
    UserDefinedIdempotent(urls);
  }

  /** One `||`-separated entry: the first two comma fields are name and url
      (both null when there are fewer than two), the third is the version
      name, further fields are ignored. An unknown version name throws. */
  function ParseEntry(entry: string): (r: Result<CloudURL>)
    ensures r.Success? ==> r.value.userDefined
    ensures r.Failure? ==> r.error.IllegalArgument?
  {
    var values := JavaSplit(entry, FieldSeparator);
    var name := if |values| >= 2 then Some(values[0]) else None;
    var url := if |values| >= 2 then Some(values[1]) else None;
    if |values| > 2 then
      match ParseVersion(values[2])
      case Success(v) => Success(CloudURL(name, url, true, Some(v)))
      case Failure(e) => Failure(e)
    else
      Success(CloudURL(name, url, true, None))
  }

  /** The non-empty strings of a list, in order. */
  function NonEmpty(entries: seq<string>): (r: seq<string>)
    ensures forall i :: 0 <= i < |r| ==> r[i] != ""
  {
    if |entries| == 0 then []
    else (if entries[0] != "" then [entries[0]] else []) + NonEmpty(entries[1..])
  }

  /** The loop of getUserDefinedUrls over the `||`-separated entries: empty
      entries are skipped, each other entry yields one URL, and the first
      entry that throws ends the whole call. */
  function DecodeEntries(entries: seq<string>): (r: Result<seq<CloudURL>>)
    ensures r.Success? ==> forall u :: u in r.value ==> u.userDefined
    ensures r.Failure? ==> r.error.IllegalArgument?
  {
    if |entries| == 0 then Success([])
    else if entries[0] == "" then DecodeEntries(entries[1..])
    else
      match ParseEntry(entries[0])
      case Failure(e) => Failure(e)
      case Success(u) =>
        match DecodeEntries(entries[1..])
        case Failure(e) => Failure(e)
        case Success(us) => Success([u] + us)
  }

  /** Decoding the entries yields one URL per non-empty entry, in order. */
  lemma {:induction false} DecodeEntriesSuccess(entries: seq<string>)
    requires DecodeEntries(entries).Success?
    ensures var us := DecodeEntries(entries).value;
      |us| == |NonEmpty(entries)|
      && forall i :: 0 <= i < |us| ==> ParseEntry(NonEmpty(entries)[i]) == Success(us[i])
  {
    if |entries| > 0 {
      DecodeEntriesSuccess(entries[1..]);
      var tailNe := NonEmpty(entries[1..]);
      if entries[0] == "" {
        assert NonEmpty(entries) == tailNe;
      } else {
        var ne := NonEmpty(entries);
        assert ne == [entries[0]] + tailNe;
        var us := DecodeEntries(entries).value;
        var tail := DecodeEntries(entries[1..]).value;
        assert us == [ParseEntry(entries[0]).value] + tail;
        forall i | 0 <= i < |us| ensures ParseEntry(ne[i]) == Success(us[i]) {
          if i > 0 {
            assert ne[i] == tailNe[i - 1] && us[i] == tail[i - 1];
          }
        }
      }
    }
  }

  /** Decoding fails exactly when some non-empty entry fails to parse. */
  lemma {:induction false} DecodeEntriesFailure(entries: seq<string>)
    ensures DecodeEntries(entries).Failure?
        <==> exists i :: 0 <= i < |NonEmpty(entries)| && ParseEntry(NonEmpty(entries)[i]).Failure?
  {
    if |entries| > 0 {
      DecodeEntriesFailure(entries[1..]);
      var tailNe := NonEmpty(entries[1..]);
      if entries[0] == "" {
        assert NonEmpty(entries) == tailNe;
      } else {
        var ne := NonEmpty(entries);
        assert ne == [entries[0]] + tailNe;
        assert ne[0] == entries[0];
        assert forall i :: 0 < i < |ne| ==> ne[i] == tailNe[i - 1];
        if ParseEntry(entries[0]).Success? && DecodeEntries(entries[1..]).Failure? {
          var i :| 0 <= i < |tailNe| && ParseEntry(tailNe[i]).Failure?;
          assert ParseEntry(ne[i + 1]).Failure?;
        }
      }
    }
  }

  /** getUserDefinedUrls: the URLs read back from a stored value. */
  function Decode(stored: string): (r: Result<seq<CloudURL>>)
    ensures |stored| == 0 ==> r == Success([])
    ensures r.Success? ==> forall u :: u in r.value ==> u.userDefined
    ensures r.Failure? ==> r.error.IllegalArgument?
  {
    if |stored| == 0 then Success([])
    else DecodeEntries(JavaSplit(stored, EntryTerminator))
  }

  /** A URL the stored format can carry: name and url present, neither
      holding a field or entry delimiter character, and a non-empty url
      (an empty url would become a trailing empty field and be dropped). */
  predicate Storable(u: CloudURL) {
    && u.name.Some? && u.url.Some?
    && ',' !in u.name.value && '|' !in u.name.value
    && ',' !in u.url.value && '|' !in u.url.value
    && |u.url.value| > 0
  }

  lemma EntryTextShape(u: CloudURL)
    requires Storable(u)
    ensures '|' !in EntryText(u)
    ensures JavaSplit(EntryText(u), FieldSeparator) == EntryFields(u)
  {
    var f := EntryFields(u);
    if u.version.Some? {
      assert VersionName(u.version.value) != "";
      assert '|' !in VersionName(u.version.value) && ',' !in VersionName(u.version.value);
    }
    JoinAvoids(f, FieldSeparator, '|');
    JavaSplitJoin(f, FieldSeparator);
  }

  /** A single storable entry reads back as the URL that was written,
      marked user-defined. */
  lemma ParseEntryText(u: CloudURL)
    requires Storable(u) && u.userDefined
    ensures ParseEntry(EntryText(u)) == Success(u)
  {
    EntryTextShape(u);
    if u.version.Some? {
      ParseVersionName(u.version.value);
    }
  }

  lemma EntryTextNonEmpty(u: CloudURL)
    ensures EntryText(u) != ""
  {
    var f := EntryFields(u);
    assert EntryText(u) == f[0] + FieldSeparator + Join(f[1..], FieldSeparator);
  }

  lemma {:induction false} DecodeEntryTexts(urls: seq<CloudURL>)
    requires forall u :: u in urls ==> Storable(u) && u.userDefined
    ensures DecodeEntries(EntryTexts(urls)) == Success(urls)
  {
    if |urls| > 0 {
      var es := EntryTexts(urls);
      var u := urls[0];
      assert u in urls;
      assert es[0] == EntryText(u);
      assert es[1..] == EntryTexts(urls[1..]);
      EntryTextNonEmpty(u);
      assert forall v :: v in urls[1..] ==> v in urls;
      DecodeEntryTexts(urls[1..]);
      ParseEntryText(u);
      assert DecodeEntries(es) == Success([u] + urls[1..]);
      assert urls == [u] + urls[1..];
    }
  }

  /** Storing then reading back returns exactly the user-defined URLs, in
      order, when each of them is storable. */
  lemma DecodeEncode(urls: seq<CloudURL>)
    requires forall u :: u in urls && u.userDefined ==> Storable(u)
    ensures Decode(Encode(urls)) == Success(UserDefined(urls))
  {
    var ud := UserDefined(urls);
    var es := EntryTexts(ud);
    EncodeIsTerminatedEntries(urls);
    if |ud| > 0 {
      var parts := es + [""];
      forall i | 0 <= i < |parts| ensures '|' !in parts[i] {
        if i < |es| {
          assert ud[i] in ud;
          EntryTextShape(ud[i]);
        }
      }
      SplitAllJoin(parts, EntryTerminator);
      var stored := Encode(urls);
      assert |SplitAll(stored, EntryTerminator)| >= 2;
      EntryTextNonEmpty(ud[|ud| - 1]);
      assert DropTrailingEmpty(parts) == es by {
        assert DropTrailingEmpty(parts) == DropTrailingEmpty(parts[..|parts| - 1]);
        assert parts[..|parts| - 1] == es;
      }
      assert |stored| > 0;
      DecodeEntryTexts(ud);
    } else {
      assert es == [];
      assert Encode(urls) == "";
    }
  }

  /** An entry without a comma still yields a URL, with null name and url. */
  lemma ParseEntryWithoutComma(entry: string)
    requires ',' !in entry
    ensures ParseEntry(entry) == Success(CloudURL(None, None, true, None))
  {
    IndexOfAbsent(entry, FieldSeparator);
  }

  /** Split drops trailing empty fields, so an entry whose commas all come
      at its end (`name,` or `,,`) also has fewer than two fields: it gives
      a null name and url, like an entry without a comma. */
  lemma ParseEntryTrailingCommas(x: string, commas: string)
    requires ',' !in x && |commas| > 0
    requires forall i :: 0 <= i < |commas| ==> commas[i] == ','
    ensures ParseEntry(x + commas) == Success(CloudURL(None, None, true, None))
  {
    SplitAllCommas(x, commas);
  }

  /** Splitting `x` followed by n commas gives `x` and n empty fields. */
  lemma {:induction false} SplitAllCommas(x: string, commas: string)
    requires ',' !in x
    requires forall i :: 0 <= i < |commas| ==> commas[i] == ','
    ensures var parts := SplitAll(x + commas, FieldSeparator);
      |parts| == |commas| + 1 && parts[0] == x
      && forall i :: 1 <= i < |parts| ==> parts[i] == ""
    decreases |commas|
  {
    if |commas| == 0 {
      assert x + commas == x;
      IndexOfAbsent(x, FieldSeparator);
    } else {
      var rest := commas[1..];
      SplitAllCommas("", rest);
      assert x + commas == x + FieldSeparator + ("" + rest);
      SplitAllAfterPart(x, FieldSeparator, "" + rest);
    }
  }

  /** ParseEntry reads only the first three comma fields. */
  lemma ParseEntryFirstThree(e1: string, e2: string)
    requires |JavaSplit(e1, FieldSeparator)| > 2 && |JavaSplit(e2, FieldSeparator)| > 2
    requires JavaSplit(e1, FieldSeparator)[..3] == JavaSplit(e2, FieldSeparator)[..3]
    ensures ParseEntry(e1) == ParseEntry(e2)
  {
    var v1 := JavaSplit(e1, FieldSeparator);
    var v2 := JavaSplit(e2, FieldSeparator);
    assert v1[0] == v1[..3][0] && v1[1] == v1[..3][1] && v1[2] == v1[..3][2];
    assert v2[0] == v2[..3][0] && v2[1] == v2[..3][1] && v2[2] == v2[..3][2];
  }

  lemma SplitAllThreeFields(name: string, url: string, version: string, rest: string)
    requires ',' !in name && ',' !in url && ',' !in version
    ensures SplitAll(name + "," + url + "," + version + "," + rest, ",")
         == [name, url, version] + SplitAll(rest, ",")
  {
    assert name + "," + url + "," + version + "," + rest
        == name + "," + (url + "," + (version + "," + rest));
    SplitAllThreeParts(name, url, version, rest, ",");
  }

  lemma DropTrailingEmptyKeeps(parts: seq<string>, k: nat)
    requires k < |parts| && parts[k] != ""
    ensures k < |DropTrailingEmpty(parts)|
    ensures DropTrailingEmpty(parts)[..k + 1] == parts[..k + 1]
  {
  }

  lemma SplitThreeFieldsAndRest(name: string, url: string, version: string, rest: string)
    requires ',' !in name && ',' !in url && ',' !in version && version != ""
    ensures var v := JavaSplit(name + "," + url + "," + version + "," + rest, FieldSeparator);
      |v| > 2 && v[..3] == [name, url, version]
  {
    var long := name + "," + url + "," + version + "," + rest;
    SplitAllThreeFields(name, url, version, rest);
    var parts := SplitAll(long, ",");
    assert |parts| >= 2;
    assert parts[2] == version;
    DropTrailingEmptyKeeps(parts, 2);
    assert parts[..3] == [name, url, version];
  }

  /** Fields after the third are ignored: the first two fields are the
      name and url, and the version comes from the third field alone. */
  lemma ParseEntryExtraFields(name: string, url: string, version: string, rest: string)
    requires ',' !in name && ',' !in url && ',' !in version && version != ""
    ensures ParseEntry(name + "," + url + "," + version + "," + rest)
         == ParseEntry(name + "," + url + "," + version)
    ensures ParseEntry(name + "," + url + "," + version).Success?
        <==> ParseVersion(version).Success?
    ensures ParseEntry(name + "," + url + "," + version)
         == match ParseVersion(version)
            case Success(v) => Success(CloudURL(Some(name), Some(url), true, Some(v)))
            case Failure(e) => Failure(e)
  {
    SplitThreeFieldsAndRest(name, url, version, rest);
    var short := name + "," + url + "," + version;
    assert [name, url, version][1..] == [url, version];
    assert [url, version][1..] == [version];
    assert Join([version], ",") == version;
    assert Join([url, version], ",") == url + "," + version;
    assert Join([name, url, version], ",") == name + "," + (url + "," + version);
    assert Join([name, url, version], ",") == short;
    JavaSplitJoin([name, url, version], ",");
    assert JavaSplit(short, FieldSeparator)[..3] == [name, url, version];
    ParseEntryFirstThree(name + "," + url + "," + version + "," + rest, short);
  }

  /** Joining empty parts leaves only separators. */
  lemma {:induction false} JoinEmptyParts(parts: seq<string>)
    requires forall i :: 0 <= i < |parts| ==> parts[i] == ""
    ensures forall k :: 0 <= k < |Join(parts, FieldSeparator)| ==> Join(parts, FieldSeparator)[k] == ','
  {
    if |parts| > 1 {
      JoinEmptyParts(parts[1..]);
      assert Join(parts, FieldSeparator) == "" + FieldSeparator + Join(parts[1..], FieldSeparator);
    }
  }

  /** A text holding some character other than a comma has a non-empty
      comma field. */
  lemma SomeFieldNonEmpty(rest: string, c: nat)
    requires c < |rest| && rest[c] != ','
    ensures exists j :: 0 <= j < |SplitAll(rest, FieldSeparator)| && SplitAll(rest, FieldSeparator)[j] != ""
  {
    var parts := SplitAll(rest, FieldSeparator);
    JoinSplitAll(rest, FieldSeparator);
    if forall j :: 0 <= j < |parts| ==> parts[j] == "" {
      JoinEmptyParts(parts);
    }
  }

  /** An empty third field followed by a non-empty field (as in `a,b,,V1`)
      is kept by split, so valueOf("") throws. */
  lemma ParseEntryEmptyVersion(name: string, url: string, rest: string, c: nat)
    requires ',' !in name && ',' !in url
    requires c < |rest| && rest[c] != ','
    ensures ParseEntry(name + "," + url + "," + "" + "," + rest) == Failure(IllegalArgument(""))
  {
    var long := name + "," + url + "," + "" + "," + rest;
    SplitAllThreeFields(name, url, "", rest);
    SomeFieldNonEmpty(rest, c);
    var tail := SplitAll(rest, FieldSeparator);
    var j :| 0 <= j < |tail| && tail[j] != "";
    var parts := SplitAll(long, FieldSeparator);
    assert parts[3 + j] == tail[j];
    DropTrailingEmptyKeeps(parts, 3 + j);
    var kept := DropTrailingEmpty(parts);
    assert kept[2] == kept[..4 + j][2] == parts[2] == "";
  }
}
