/** The non-widget logic of CommandDisplayPart, the editor part for a
    service tunnel command: the validation rule over the entered values,
    the snapshot of the four text fields taken on every change event, and
    the fixed help text listing the tunnel option variables. */
module CommandDisplayPart {
  import opened Base
  import opened Text

  /** The IStatus the part reports: OK, or an error whose message may be
      null. */
  datatype Status = Ok | Error(message: Option<string>)

  const NoLocationMessage: string := "No command executable location specified."
  const NoDisplayNameMessage: string := "No command display name specified."

  /** The values the part keeps; each is null until set. */
  datatype FieldValues = FieldValues(
    location: Option<string>,
    displayName: Option<string>,
    options: Option<string>,
    terminalLocation: Option<string>)

  /** ValueValidationUtil.isEmpty: null or the empty string. */
  predicate IsEmpty(value: Option<string>) {
    value.None? || |value.value| == 0
  }

  /** validate: the location is checked before the display name; on the
      initial validation an invalid state still gives an error status, but
      without a message, so nothing is shown before the user types. */
  function Validate(values: FieldValues, initialValidate: bool): (status: Status)
    ensures status.Ok? <==> !IsEmpty(values.location) && !IsEmpty(values.displayName)
    ensures status.Error? && initialValidate ==> status.message.None?
    ensures IsEmpty(values.location) && !initialValidate
      ==> status == Error(Some(NoLocationMessage))
    ensures !IsEmpty(values.location) && IsEmpty(values.displayName) && !initialValidate
      ==> status == Error(Some(NoDisplayNameMessage))
  {
    var message: Option<string> :=
      if IsEmpty(values.location) then Some(NoLocationMessage)
      else if IsEmpty(values.displayName) then Some(NoDisplayNameMessage)
      else None;
    if message.Some? then Error(if initialValidate then None else message)
    else Ok
  }

  /** The options and terminal location never influence validation. */
  lemma ValidateIgnoresOptionsAndTerminal(a: FieldValues, b: FieldValues, initialValidate: bool)
    requires a.location == b.location && a.displayName == b.displayName
    ensures Validate(a, initialValidate) == Validate(b, initialValidate)
  {
  }

  /** The current texts of the four text widgets (Text.getText never
      returns null). */
  datatype WidgetTexts = WidgetTexts(
    location: string,
    displayName: string,
    options: string,
    terminalLocation: string)

  /** What raised the change event: a text modification, or the Browse
      button, whose file dialog returns the chosen path or null when
      cancelled. */
  datatype ChangeSource = TextModified | BrowseButton(chosen: Option<string>)

  /** The part after createPart: its widgets, the values last snapshotted
      from them, and the status last reported. */
  datatype CommandPart = CommandPart(widgets: WidgetTexts, values: FieldValues, status: Status) {
    function GetDisplayName(): Option<string> { values.displayName }
    function GetLocation(): Option<string> { values.location }
    function GetOptions(): Option<string> { values.options }
    function GetTerminalLocation(): Option<string> { values.terminalLocation }
  }

  /** handleChange: a Browse event first lets the file dialog replace the
      location text; then all four texts are copied into the values and the
      part is validated (not as the initial validation). */
  function HandleChange(part: CommandPart, source: ChangeSource): (r: CommandPart)
    ensures r.GetLocation() == Some(r.widgets.location)
    ensures r.GetDisplayName() == Some(r.widgets.displayName)
    ensures r.GetOptions() == Some(r.widgets.options)
    ensures r.GetTerminalLocation() == Some(r.widgets.terminalLocation)
    ensures r.widgets.displayName == part.widgets.displayName
    ensures r.widgets.options == part.widgets.options
    ensures r.widgets.terminalLocation == part.widgets.terminalLocation
    ensures r.widgets.location
      == (if source.BrowseButton? && source.chosen.Some? then source.chosen.value
          else part.widgets.location)
    ensures r.status == Validate(r.values, false)
  {
    var widgets :=
      if source.BrowseButton? && source.chosen.Some? then part.widgets.(location := source.chosen.value)
      else part.widgets;
    var values := FieldValues(
      Some(widgets.location), Some(widgets.displayName),
      Some(widgets.options), Some(widgets.terminalLocation));
    CommandPart(widgets, values, Validate(values, false))
  }

  /** The four text widgets of the part. */
  datatype TextField = LocationText | DisplayNameText | OptionsText | TerminalText

  function WidgetText(widgets: WidgetTexts, field: TextField): string {
    match field
    case LocationText => widgets.location
    case DisplayNameText => widgets.displayName
    case OptionsText => widgets.options
    case TerminalText => widgets.terminalLocation
  }

  /** createPart registers a modify listener on the location, display name
      and options texts; the terminal text has none. */
  predicate HasModifyListener(field: TextField) {
    field != TerminalText
  }

  /** The user edits one text widget: its text becomes `text`, and when the
      widget has a modify listener the change event runs handleChange. */
  function EditText(part: CommandPart, field: TextField, text: string): (r: CommandPart)
    ensures WidgetText(r.widgets, field) == text
    ensures forall f :: f != field ==> WidgetText(r.widgets, f) == WidgetText(part.widgets, f)
    ensures HasModifyListener(field) ==>
      && r.GetLocation() == Some(r.widgets.location)
      && r.GetDisplayName() == Some(r.widgets.displayName)
      && r.GetOptions() == Some(r.widgets.options)
      && r.GetTerminalLocation() == Some(r.widgets.terminalLocation)
      && r.status == Validate(r.values, false)
    ensures !HasModifyListener(field) ==> r.values == part.values && r.status == part.status
  {
    var widgets := match field
      case LocationText => part.widgets.(location := text)
      case DisplayNameText => part.widgets.(displayName := text)
      case OptionsText => part.widgets.(options := text)
      case TerminalText => part.widgets.(terminalLocation := text);
    var edited := part.(widgets := widgets);
    if HasModifyListener(field) then HandleChange(edited, TextModified) else edited
  }

  /** Editing only the terminal text leaves getTerminalLocation at its old
      value, so it no longer matches the widget; the next change event
      from another widget or the Browse button brings it up to date. */
  lemma TerminalEditIsStale(part: CommandPart, text: string, source: ChangeSource)
    requires part.GetTerminalLocation() == Some(part.widgets.terminalLocation)
    requires text != part.widgets.terminalLocation
    ensures var r := EditText(part, TerminalText, text);
      && r.GetTerminalLocation() == part.GetTerminalLocation()
      && r.GetTerminalLocation() != Some(r.widgets.terminalLocation)
      && HandleChange(r, source).GetTerminalLocation() == Some(text)
  {
  }

  /** After a change the status is OK exactly when both the location and
      the display name texts are non-empty, and otherwise carries the
      message of the first empty one. */
  lemma HandleChangeStatus(part: CommandPart, source: ChangeSource)
    ensures var r := HandleChange(part, source);
      && (r.status == Ok <==> r.widgets.location != "" && r.widgets.displayName != "")
      && (r.widgets.location == "" ==> r.status == Error(Some(NoLocationMessage)))
      && (r.widgets.location != "" && r.widgets.displayName == "" ==>
            r.status == Error(Some(NoDisplayNameMessage)))
  {
  }

  /** ExternalToolUIOptionsHandler.TunnelOptions: the variables a tunnel
      command's options may mention. */
  datatype TunnelOption = Username | Password | Url | Databasename | Port

  /** Enum.name(). */
  function OptionName(o: TunnelOption): string {
    match o
    case Username => "Username"
    case Password => "Password"
    case Url => "Url"
    case Databasename => "Databasename"
    case Port => "Port"
  }

  /** The first line of the help text: "Use the following variables for
      tunnel options to be filled automatically:". It is written as a
      concatenation of short literals because the verifier can check a short
      literal for newlines directly, but not one of this length. */
  const DescriptionHeader: string :=
    "Use the following" + " variables for" + " tunnel options" + " to be filled" + " automatically:"

  /** The variables in the order the help text lists them. */
  const DescribedOptions: seq<TunnelOption> := [Username, Password, Url, Databasename, Port]

  /** `$Name` for each option, newline-separated, as the writer appends
      them: a newline goes before every variable but the first. */
  function VariablesText(options: seq<TunnelOption>): string {
    if |options| == 0 then ""
    else if |options| == 1 then "$" + OptionName(options[0])
    else "$" + OptionName(options[0]) + "\n" + VariablesText(options[1..])
  }

  /** getOptionsDescription: the header, a newline, an empty line's
      newline, then the variables. */
  function OptionsDescription(): string {
    DescriptionHeader + "\n" + "\n" + VariablesText(DescribedOptions)
  }

  function VariableLines(options: seq<TunnelOption>): (lines: seq<string>)
    ensures |lines| == |options|
    ensures forall i :: 0 <= i < |options| ==> lines[i] == "$" + OptionName(options[i])
  {
    if |options| == 0 then [] else ["$" + OptionName(options[0])] + VariableLines(options[1..])
  }

  lemma OptionNameShape(o: TunnelOption)
    ensures '\n' !in "$" + OptionName(o)
  {
  }

  /** Splitting the variables text at newlines gives one `$Name` per option,
      and the text ends with the last option's name, not a newline. */
  lemma {:induction false} VariablesTextLines(options: seq<TunnelOption>)
    requires |options| > 0
    ensures SplitAll(VariablesText(options), "\n") == VariableLines(options)
    ensures var t := VariablesText(options);
      |t| > 0 && t[|t| - 1] != '\n'
  {
    var first := "$" + OptionName(options[0]);
    OptionNameShape(options[0]);
    if |options| == 1 {
      IndexOfAbsent(first, "\n");
    } else {
      VariablesTextLines(options[1..]);
      SplitAllAfterPart(first, "\n", VariablesText(options[1..]));
    }
  }

  /** The lines of the help text. */
  function DescriptionLines(): seq<string> {
    [DescriptionHeader, ""] + VariableLines(DescribedOptions)
  }

  lemma VariableName(o: TunnelOption, name: string, line: string)
    requires OptionName(o) == name && |line| == |name| + 1 && line[0] == '$'
    requires forall i :: 0 <= i < |name| ==> line[i + 1] == name[i]
    ensures "$" + OptionName(o) == line
  {
  }

  lemma DescriptionLinesValue()
    ensures DescriptionLines()
         == [DescriptionHeader, "", "$Username", "$Password", "$Url", "$Databasename", "$Port"]
  {
    var vars := VariableLines(DescribedOptions);
    assert |vars| == 5;
    VariableName(Username, "Username", "$Username");
    VariableName(Password, "Password", "$Password");
    VariableName(Url, "Url", "$Url");
    VariableName(Databasename, "Databasename", "$Databasename");
    VariableName(Port, "Port", "$Port");
    assert vars == ["$Username", "$Password", "$Url", "$Databasename", "$Port"];
  }

  /** A help text built from any newline-free header: the header line, an
      empty line, then the variable lines, with no trailing newline. */
  lemma {:induction false} HeaderAndVariablesLines(header: string, options: seq<TunnelOption>)
    requires '\n' !in header && |options| > 0
    ensures var text := header + "\n" + "\n" + VariablesText(options);
      SplitAll(text, "\n") == [header, ""] + VariableLines(options)
      && text[|text| - 1] != '\n'
  {
    VariablesTextLines(options);
    HeaderBlankRest(header, VariablesText(options));
  }

  lemma LastOfAppend(u: string, v: string)
    requires |v| > 0
    ensures (u + v)[|u + v| - 1] == v[|v| - 1]
  {
  }

  lemma HeaderBlankRest(header: string, rest: string)
    requires '\n' !in header && |rest| > 0
    ensures var text := header + "\n" + "\n" + rest;
      SplitAll(text, "\n") == [header, ""] + SplitAll(rest, "\n")
      && text[|text| - 1] == rest[|rest| - 1]
  {
    SplitAllTwoParts(header, "", rest, "\n");
    assert header + "\n" + "\n" + rest == header + "\n" + ("" + "\n" + rest);
    LastOfAppend(header + "\n" + "\n", rest);
  }

  lemma HeaderHasNoNewline()
    ensures '\n' !in DescriptionHeader
  {
  }

  /** The help text is the header line, an empty line, then one `$Name`
      line per tunnel option in declaration order, with no trailing newline. */
  lemma OptionsDescriptionLines()
    ensures SplitAll(OptionsDescription(), "\n") == DescriptionLines()
    ensures OptionsDescription()[|OptionsDescription()| - 1] != '\n'
  {
    HeaderHasNoNewline();
    HeaderAndVariablesLines(DescriptionHeader, DescribedOptions);
  }
}
