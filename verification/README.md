# Cloud URL handling and the tunnel command part, in Dafny

This project models two pieces of the Cloud Foundry Eclipse integration's UI
plug-in.

The first is the Cloud URL handling of `CloudUiUtil`:

- the preference-string format in which user-defined Cloud URLs are stored
  (`storeUserDefinedUrls`) and read back (`getUserDefinedUrls`);
- the merged, name-sorted URL list (`getUrls`, `getAllUrls`);
- the `name - url` display text and its inverse (`getDisplayTextFromUrl`,
  `getUrlFromDisplayText`);
- the cloud-version lookup (`getCloudVersion`);
- the `{wildcard}` test of `getWildcardUrl`.

The second is the non-widget logic of `CommandDisplayPart`, the editor part
for a service tunnel command:

- the validation rule;
- the snapshot of the four text fields taken on each change;
- the getters;
- the fixed help text listing the tunnel-option variables.

Java's null and exceptions are modelled as values:

- a String or list reference that may be null is an `Option`;
- a call that may throw returns a `Result`, whose failure names the
  exception (`NullPointer`, `IllegalArgument`, `IndexOutOfBounds`);
- `StringBuilder.append(null)` and string concatenation write `"null"`
  (`Base.NullText`).

The library behaviour the code relies on is written out in module `Text`:

- `String.indexOf` and `String.lastIndexOf`;
- `String.split` with a literal delimiter, limit 0, and dropping trailing
  empty strings;
- `String.compareToIgnoreCase`.

The sort `Collections.sort` is modelled as a stable insertion sort in
`UrlOrdering`.

Modules:

- `Base`: Option, Result and the exceptions.
- `Text`: the string operations and their specifications.
- `CloudModel`: the `CloudURL` record and the `CloudVersion` enumeration.
- `UrlPreferences`: the stored format.
- `UrlOrdering`: the sort by case-insensitive name.
- `CloudUiUtil`: the URL operations.
- `CommandDisplayPart`: the tunnel command part.

The preference store, the branding extension point, the server and the dialog
are inputs rather than calls:

- the stored preference value of one server type is a `string`;
- the branding default URL and built-in list are parameters, with the list
  `None` when the extension point has none;
- `getCloudVersion` and `getDisplayTextFromUrl` take the `getAllUrls` list
  they would compute;
- the TargetURLDialog's answer is an `Option<DialogChoice>`, with `None` for
  Cancel.

## Model

| member | source | states |
|---|---|---|
| CloudModel.ParseVersion | org.cloudfoundry.ide.eclipse.server.ui/src/org/cloudfoundry/ide/eclipse/internal/server/ui/CloudUiUtil.java:186 | `CloudVersion.valueOf` succeeds only with a version whose name is exactly the text. Otherwise it throws IllegalArgumentException, and no version has that name. |
| UrlPreferences.EncodeIsTerminatedEntries | org.cloudfoundry.ide.eclipse.server.ui/src/org/cloudfoundry/ide/eclipse/internal/server/ui/CloudUiUtil.java:199-216 | The stored value holds the `name,url[,version]` entries of exactly the user-defined URLs, in list order, each followed by `\|\|`. |
| UrlPreferences.EncodeUserDefinedOnly | org.cloudfoundry.ide.eclipse.server.ui/src/org/cloudfoundry/ide/eclipse/internal/server/ui/CloudUiUtil.java:203-204 | URLs that are not user-defined do not affect the stored value. |
| UrlPreferences.ParseEntry | org.cloudfoundry.ide.eclipse.server.ui/src/org/cloudfoundry/ide/eclipse/internal/server/ui/CloudUiUtil.java:174-188 | Every URL read from an entry is marked user-defined. |
| UrlPreferences.ParseEntryWithoutComma | org.cloudfoundry.ide.eclipse.server.ui/src/org/cloudfoundry/ide/eclipse/internal/server/ui/CloudUiUtil.java:174-182 | An entry without a comma gives a user-defined URL whose name, url and version are all null. |
| UrlPreferences.ParseEntryTrailingCommas | org.cloudfoundry.ide.eclipse.server.ui/src/org/cloudfoundry/ide/eclipse/internal/server/ui/CloudUiUtil.java:174-182 | Split drops trailing empty fields, so an entry whose commas all come at its end (`name,`, `,,`) also gives a null name, url and version. |
| UrlPreferences.ParseEntryExtraFields | org.cloudfoundry.ide.eclipse.server.ui/src/org/cloudfoundry/ide/eclipse/internal/server/ui/CloudUiUtil.java:179-186 | For an entry `name,url,version[,rest]` with a non-empty version field, comma fields after the third are ignored. The entry parses exactly when the third field names a version. It then gives a user-defined URL with the first two fields as name and url and that version; otherwise it throws what `valueOf` throws. |
| UrlPreferences.ParseEntryEmptyVersion | org.cloudfoundry.ide.eclipse.server.ui/src/org/cloudfoundry/ide/eclipse/internal/server/ui/CloudUiUtil.java:174-186 | An empty third field followed by a non-empty field (as in `a,b,,V1`) survives the split, so `valueOf("")` throws IllegalArgumentException. |
| UrlPreferences.DecodeEntriesSuccess | org.cloudfoundry.ide.eclipse.server.ui/src/org/cloudfoundry/ide/eclipse/internal/server/ui/CloudUiUtil.java:172-192 | When reading succeeds, there is one URL per non-empty entry, in order, each the parse of its entry. Empty entries are skipped. |
| UrlPreferences.DecodeEntriesFailure | org.cloudfoundry.ide.eclipse.server.ui/src/org/cloudfoundry/ide/eclipse/internal/server/ui/CloudUiUtil.java:172-192 | Reading the entries throws exactly when some non-empty entry fails to parse. |
| UrlPreferences.Decode | org.cloudfoundry.ide.eclipse.server.ui/src/org/cloudfoundry/ide/eclipse/internal/server/ui/CloudUiUtil.java:162-197 | An empty stored value gives the empty list. Every URL read back is user-defined. |
| UrlPreferences.DecodeEncode | org.cloudfoundry.ide.eclipse.server.ui/src/org/cloudfoundry/ide/eclipse/internal/server/ui/CloudUiUtil.java:162-219 | Reading back what `storeUserDefinedUrls` wrote gives exactly the user-defined URLs, in order. This needs every user-defined URL to have a name and url containing neither `,` nor `\|`, and a non-empty url. |
| Text.CompareIgnoreCaseAntisymmetric | org.cloudfoundry.ide.eclipse.server.ui/src/org/cloudfoundry/ide/eclipse/internal/server/ui/CloudUiUtil.java:150-154 | Swapping the names the comparator compares negates the result. |
| Text.CompareIgnoreCaseZero | org.cloudfoundry.ide.eclipse.server.ui/src/org/cloudfoundry/ide/eclipse/internal/server/ui/CloudUiUtil.java:153 | Two names compare as 0 exactly when they are equal ignoring case. |
| Text.CompareIgnoreCaseTransitive | org.cloudfoundry.ide.eclipse.server.ui/src/org/cloudfoundry/ide/eclipse/internal/server/ui/CloudUiUtil.java:150-154 | The comparator's order is transitive, as `Collections.sort` requires. |
| UrlOrdering.SortByNameSorted | org.cloudfoundry.ide.eclipse.server.ui/src/org/cloudfoundry/ide/eclipse/internal/server/ui/CloudUiUtil.java:150-156 | The sorted list is ordered by case-insensitive name. |
| UrlOrdering.SortByNamePermutes | org.cloudfoundry.ide.eclipse.server.ui/src/org/cloudfoundry/ide/eclipse/internal/server/ui/CloudUiUtil.java:150-156 | The sorted list is a permutation of its input. |
| UrlOrdering.SortByNameStable | org.cloudfoundry.ide.eclipse.server.ui/src/org/cloudfoundry/ide/eclipse/internal/server/ui/CloudUiUtil.java:150-156 | URLs whose names are equal ignoring case keep their relative order. |
| CloudUiUtil.Unshadowed | org.cloudfoundry.ide.eclipse.server.ui/src/org/cloudfoundry/ide/eclipse/internal/server/ui/CloudUiUtil.java:143-148 | A built-in URL is kept exactly when no user-defined URL has its name. A null name shadows a null name. The kept URLs stay in list order, with duplicates kept. |
| CloudUiUtil.MergeUrls | org.cloudfoundry.ide.eclipse.server.ui/src/org/cloudfoundry/ide/eclipse/internal/server/ui/CloudUiUtil.java:142-159 | Without a built-in list, the user-defined URLs are returned unsorted and unchanged. With one, it throws exactly when at least two URLs are merged and some user-defined or built-in URL has a null name, and the exception is NullPointerException. |
| CloudUiUtil.GetUrls | org.cloudfoundry.ide.eclipse.server.ui/src/org/cloudfoundry/ide/eclipse/internal/server/ui/CloudUiUtil.java:131-160 | getUrls throws exactly when reading the stored URLs throws or merging throws. An unknown stored version name gives IllegalArgumentException; otherwise the exception is NullPointerException. |
| CloudUiUtil.GetUrlsContents | org.cloudfoundry.ide.eclipse.server.ui/src/org/cloudfoundry/ide/eclipse/internal/server/ui/CloudUiUtil.java:131-160 | getUrls contains every user-defined URL, and a built-in URL exactly when it is not shadowed by name. It contains nothing else, and each URL occurs as often as in those sources. With a built-in list the result is sorted by case-insensitive name and stable among equal names. Without one, it is the stored list. |
| CloudUiUtil.GetAllUrls | org.cloudfoundry.ide.eclipse.server.ui/src/org/cloudfoundry/ide/eclipse/internal/server/ui/CloudUiUtil.java:120-125 | The default URL comes first, followed by the getUrls list unchanged. It fails exactly when getUrls fails. |
| CloudUiUtil.UrlFromDisplayText | org.cloudfoundry.ide.eclipse.server.ui/src/org/cloudfoundry/ide/eclipse/internal/server/ui/CloudUiUtil.java:324-334 | Returns the text after the last occurrence of ` - `. Text without the separator is returned unchanged. Null stays null. |
| CloudUiUtil.DisplayTextFromUrl | org.cloudfoundry.ide.eclipse.server.ui/src/org/cloudfoundry/ide/eclipse/internal/server/ui/CloudUiUtil.java:375-383 | Gives `name - url` for the first listed URL equal to `url`, with a null name written as "null". Gives `url` when none matches. Throws NullPointerException exactly when it reaches a listed URL whose url is null. |
| CloudUiUtil.DisplayTextRoundTrip | org.cloudfoundry.ide.eclipse.server.ui/src/org/cloudfoundry/ide/eclipse/internal/server/ui/CloudUiUtil.java:324-383 | getUrlFromDisplayText recovers the url from getDisplayTextFromUrl's text, whether or not a listed URL matched. This holds when ` - ` occurs in `" - " + url` only at its start. |
| CloudUiUtil.CloudVersionOf | org.cloudfoundry.ide.eclipse.server.ui/src/org/cloudfoundry/ide/eclipse/internal/server/ui/CloudUiUtil.java:343-373 | Returns the version of the first listed URL whose url equals the display text's url and whose version is set. Returns null when no listed URL qualifies, or when there is no server. |
| CloudUiUtil.WildcardOf | org.cloudfoundry.ide.eclipse.server.ui/src/org/cloudfoundry/ide/eclipse/internal/server/ui/CloudUiUtil.java:488-492 | A null url throws NullPointerException. A url without `{` has no wildcard. A url with `{` always gives a wildcard or throws. A wildcard found is the text between the first `{` and the first `}`. It throws IndexOutOfBounds exactly when there is no `}` or the first `}` comes before the first `{`. |
| CloudUiUtil.WildcardOfTemplate | org.cloudfoundry.ide.eclipse.server.ui/src/org/cloudfoundry/ide/eclipse/internal/server/ui/CloudUiUtil.java:488-492 | The wildcard of `a{w}b` is `w` when `a` has no braces and `w` has no `}`. |
| CloudUiUtil.WildcardUrl | org.cloudfoundry.ide.eclipse.server.ui/src/org/cloudfoundry/ide/eclipse/internal/server/ui/CloudUiUtil.java:487-506 | A url without a wildcard gives null, and the dialog is not consulted. A confirmed dialog gives a user-defined URL with the dialog's name and url and no version. It throws exactly when the wildcard test throws. For a url with a wildcard, a confirmed dialog gives the new URL and Cancel gives null. |
| CommandDisplayPart.Validate | org.cloudfoundry.ide.eclipse.server.ui/src/org/cloudfoundry/ide/eclipse/internal/server/ui/tunnel/CommandDisplayPart.java:259-281 | The status is OK exactly when both location and display name are non-empty. A missing location is reported before a missing display name. On the initial validation the error carries no message. |
| CommandDisplayPart.HandleChange | org.cloudfoundry.ide.eclipse.server.ui/src/org/cloudfoundry/ide/eclipse/internal/server/ui/tunnel/CommandDisplayPart.java:246-257 | After a change, the four getters return the current widget texts. Only a Browse with a chosen file changes the location text. The part is then validated as not initial. |
| CommandDisplayPart.EditText | org.cloudfoundry.ide.eclipse.server.ui/src/org/cloudfoundry/ide/eclipse/internal/server/ui/tunnel/CommandDisplayPart.java:117-148 | Editing a text widget changes only that widget. Editing the location, display name or options text raises a change event, after which the getters return the widget texts and the part is validated. Editing the terminal text, which has no listener, leaves the values and status unchanged. |
| CommandDisplayPart.TerminalEditIsStale | org.cloudfoundry.ide.eclipse.server.ui/src/org/cloudfoundry/ide/eclipse/internal/server/ui/tunnel/CommandDisplayPart.java:117-148 | After an edit of only the terminal text, getTerminalLocation still returns the old value, which no longer matches the widget. The next change event from another widget brings it up to date. |
| CommandDisplayPart.OptionsDescriptionLines | org.cloudfoundry.ide.eclipse.server.ui/src/org/cloudfoundry/ide/eclipse/internal/server/ui/tunnel/CommandDisplayPart.java:211-231 | The help text's lines are the header, an empty line, then `$Name` for each tunnel option in order. There is no trailing newline. |
| CommandDisplayPart.HeaderAndVariablesLines | org.cloudfoundry.ide.eclipse.server.ui/src/org/cloudfoundry/ide/eclipse/internal/server/ui/tunnel/CommandDisplayPart.java:212-230 | Any header without a newline, followed by two newlines and the newline-separated `$Name` variables, splits into the header, an empty line and one line per variable. It does not end in a newline. |
| CommandDisplayPart.DescriptionLinesValue | org.cloudfoundry.ide.eclipse.server.ui/src/org/cloudfoundry/ide/eclipse/internal/server/ui/tunnel/CommandDisplayPart.java:211-231 | The variable lines are `$Username`, `$Password`, `$Url`, `$Databasename` and `$Port`. |

## Left out

Not modelled:

- The other ten static methods of `CloudUiUtil`. Nine of them are I/O against the Eclipse workbench, the network or the Cloud Foundry client:
  - `runForked` in its three forms;
  - `updatePassword`, `validateCredentials` and `getCloudSpaces`;
  - `openUrl` in both forms;
  - `getServersViewSelection`.
- The tenth, `getDefaultUrl`, only forwards to the branding extension point, whose result is a parameter here.
- Widget construction and listeners in `CommandDisplayPart`:
  - `createPart`;
  - the traverse listener;
  - `setInitialValues`;
  - `handleFileLocationButtonSelected`.

  All of these are SWT calls. Their effects on the modelled state are covered in three ways:
  - The file dialog's choice is the `BrowseButton` parameter of `HandleChange`.
  - Which widgets raise change events is covered by `EditText`: every text except the terminal text does.
  - `setInitialValues` copies the values of the ServiceCommand being edited, which is not modelled, into the part. A `CommandPart` may therefore start from any values, including a terminal value that no widget produced.
- `CloudUiUtil.GetAllUrls`: `CloudURL` objects are taken to be non-null. This covers the branding default URL, the elements of the built-in list, and the URL passed to getWildcardUrl. Whether the branding extension point can return a null default is not visible in the two modelled classes. This rules out these NullPointerExceptions:
  - a null default URL placed first by getAllUrls, then dereferenced by getDisplayTextFromUrl (`cloudUrl.getUrl()`, CloudUiUtil.java line 378) or getCloudVersion (`url.getUrl()`, line 360);
  - a null built-in element dereferenced by getUrls (`defaultUrl.getName()`, line 145);
  - a null `cloudUrl` argument dereferenced by getWildcardUrl (`cloudUrl.getUrl()`, line 488).
- Reading and writing the preference store and its key. The stored value is the string parameter and result.
- `CloudModel.CloudVersion`: the enumeration is declared in the core plug-in (`org.cloudfoundry.ide.eclipse.internal.server.core.spaces.CloudVersion`), outside the two modelled classes. Its constants are taken to be `V1` and `V2`, the two versions that `getCloudVersion`'s documentation names.
- `CommandDisplayPart.IsEmpty`: `ValueValidationUtil.isEmpty` is not part of this model. It is taken to mean null or the empty string.
- `Text.CompareIgnoreCase`: folds ASCII letters only. Java's full Unicode case mapping is not modelled. It also compares Unicode scalar values where Java compares UTF-16 code units, so a character above U+FFFF orders after one in U+E000–U+FFFF here but before it in Java (its high surrogate is below U+E000). `SortByName`, and so `GetUrls`, can order such names differently from `Collections.sort`.
- `CloudUiUtil.MergeUrls`: does not model the order in which Java's sort would compare elements. It throws NullPointerException whenever two or more URLs are sorted and one name is null, since every element is then compared at least once.
- `CloudUiUtil.CloudVersionOf`: takes the getAllUrls list, or `None` for a null server, rather than computing it. An exception from getAllUrls belongs to the caller.
- `CloudUiUtil.DisplayTextFromUrl`: takes the getAllUrls list as a parameter, so it also leaves exceptions from getAllUrls to the caller.
- `CloudUiUtil.WildcardUrl`: the three-argument `CloudURL(name, url, true)` constructor it calls is not part of this model. It is taken to leave the cloud version null, which is why the result carries `None` as its version.
- `CloudUiUtil.WildcardUrl`: the dialog is the user's answer. Its construction, its validation of the new URL against the list, and its display are not modelled.
