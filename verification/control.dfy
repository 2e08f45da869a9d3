/** The address-lookup control as an immutable state record, and the host
    lifecycle and user events as functions from state to state: `init`,
    the input handler `refreshData`, the end of a query's response handler,
    `selectAddress`, `updateView` and `getOutputs`.

    Issuing a query is recorded by appending its URL to `requests`; what the
    network does with it is outside the model. A response arriving is the
    separate event `ShowResults`, which may come at any later point. */
module AddressLookup {
  import opened Wrappers
  import opened Query
  import opened Rows

  /** The host's bound `address` property: the raw value and the display
      form, either of which may be null. */
  datatype AddressProperty = AddressProperty(raw: Option<string>, formatted: Option<string>)

  /** `formatted ? formatted : ""`; an empty string is falsy, so it gives
      `""` either way. */
  function DisplayText(p: AddressProperty): (t: string)
    ensures p.formatted.None? ==> t == ""
    ensures p.formatted.Some? ==> t == p.formatted.value
  {
    p.formatted.GetOr("")
  }

  /** The search box, an `<input type="text">`. `text` is what it shows,
      `defaultValue` its `value` attribute, and `dirty` the HTML dirty value
      flag: once the user types or a script assigns the text, setting the
      attribute no longer changes what the box shows. */
  datatype SearchBox = SearchBox(text: string, defaultValue: string, dirty: bool)

  /** The value sanitization of a text input (section 4.10.5.1.2 of the
      HTML Living Standard): line feeds and carriage returns are removed, and
      every other character is kept in order. */
  function StripNewlines(v: string): (r: string)
    ensures '\n' !in r && '\r' !in r
    ensures |r| <= |v|
    ensures '\n' !in v && '\r' !in v ==> r == v
    ensures |v| == 1 ==> r == if v[0] == '\n' || v[0] == '\r' then "" else v
    ensures forall c :: c != '\n' && c != '\r' ==> multiset(r)[c] == multiset(v)[c]
  {
    if |v| == 0 then ""
    else
      var head := if v[0] == '\n' || v[0] == '\r' then "" else [v[0]];
      var r := head + StripNewlines(v[1..]);
      assert v == [v[0]] + v[1..];
      assert multiset(v) == multiset([v[0]]) + multiset(v[1..]);
      assert multiset(r) == multiset(head) + multiset(StripNewlines(v[1..]));
      r
  }

  /** Sanitizing works character by character: a concatenation is
      sanitized piece by piece, so every kept character stays in its
      place relative to the others. */
  lemma {:induction false} StripNewlinesAppend(a: string, b: string)
    ensures StripNewlines(a + b) == StripNewlines(a) + StripNewlines(b)
    decreases |a|
  {
    if |a| > 0 {
      assert (a + b)[0] == a[0];
      assert (a + b)[1..] == a[1..] + b;
      StripNewlinesAppend(a[1..], b);
    } else {
      assert a + b == b;
    }
  }

  /** Sanitizing twice is sanitizing once. */
  lemma StripNewlinesIdempotent(v: string)
    ensures StripNewlines(StripNewlines(v)) == StripNewlines(v)
  {
  }

  /** `setAttribute("value", v)`: the attribute keeps `v` as given; a box the
      user has not edited shows `v` sanitized. */
  function SetValueAttribute(b: SearchBox, v: string): (r: SearchBox)
    ensures r.defaultValue == v && r.dirty == b.dirty
    ensures !b.dirty ==> r.text == StripNewlines(v)
    ensures b.dirty ==> r.text == b.text
  {
    SearchBox(if b.dirty then b.text else StripNewlines(v), v, b.dirty)
  }

  /** A script assigns `value`: the box shows `v` sanitized from now on and
      is dirty. */
  function SetText(b: SearchBox, v: string): (r: SearchBox)
    ensures r.text == StripNewlines(v) && r.dirty && r.defaultValue == b.defaultValue
  {
    SearchBox(StripNewlines(v), b.defaultValue, true)
  }

  /** The user edits the box so that it holds `typed`: it shows exactly that
      text from now on and is dirty. A browser never lets a text input hold a
      line break, so `typed` is whatever the edit left, taken as given. */
  function Edit(b: SearchBox, typed: string): (r: SearchBox)
    ensures r.text == typed && r.dirty && r.defaultValue == b.defaultValue
  {
    SearchBox(typed, b.defaultValue, true)
  }

  /** What the result list holds: a bare message, or one row per address. */
  datatype ResultList = Message(text: string) | Items(rows: seq<string>)

  datatype Control = Control(
    value: Option<string>,        // `_value`, reported to the host by getOutputs
    box: SearchBox,
    list: ResultList,
    labelText: string,
    property: AddressProperty,    // the bound property of the last context seen
    requests: seq<string>,        // every query URL issued, oldest first
    notifications: nat)           // how often the host was told outputs changed

  datatype Outputs = Outputs(address: Option<string>)

  /** `init`: the value comes from the raw property, box and label show the
      formatted one, the list is empty and nothing has been requested. */
  function Init(p: AddressProperty): (c: Control)
    ensures c.value == p.raw && c.property == p
    ensures c.box.text == StripNewlines(DisplayText(p)) && !c.box.dirty
    ensures c.labelText == DisplayText(p)
    ensures c.list == Items([]) && c.requests == [] && c.notifications == 0
  {
    var blank := SearchBox("", "", false);
    Control(p.raw, SetValueAttribute(blank, DisplayText(p)), Items([]), DisplayText(p), p, [], 0)
  }

  /** `fetchAddresses(text)` up to the network call: empty text shows the
      placeholder and issues nothing; other text issues its query URL and
      leaves the list as it is until a response arrives. */
  function FetchAddresses(c: Control, text: string): (r: Control)
    ensures |text| == 0 ==> r == c.(list := Message(Placeholder))
    ensures |text| > 0 ==> |r.requests| == |c.requests| + 1 && r.requests[..|c.requests|] == c.requests
    ensures |text| > 0 ==> Some(r.requests[|c.requests|]) == QueryUrl(text)
    ensures |text| > 0 ==> r.(requests := c.requests) == c
  {
    match QueryUrl(text)
    case None => c.(list := Message(Placeholder))
    case Some(url) => c.(requests := c.requests + [url])
  }

  /** `refreshData`, run on the input event after the user's edit left the
      box holding `typed`: the value becomes the text the box now shows and a
      query for it is made. */
  function RefreshData(c: Control, typed: string): (r: Control)
    ensures r.box == Edit(c.box, typed)
    ensures r.value == Some(r.box.text) && r.box.text == typed
    ensures r.labelText == c.labelText && r.property == c.property && r.notifications == c.notifications
    ensures |typed| == 0 <==> r.requests == c.requests
    ensures |typed| == 0 ==> r.list == Message(Placeholder)
    ensures |typed| > 0 ==> r.list == c.list && r.requests == c.requests + [QueryUrl(typed).value]
  {
    var edited := c.(box := Edit(c.box, typed), value := Some(typed));
    var r := FetchAddresses(edited, typed);
    assert |typed| > 0 ==> r.requests == c.requests + [QueryUrl(typed).value];
    r
  }

  /** The response handler once the records are parsed: the list is cleared
      and refilled with one row per record, in order. */
  function ShowResults(c: Control, records: seq<AddressAttributes>): (r: Control)
    ensures r.list.Items? && |r.list.rows| == |records|
    ensures forall i :: 0 <= i < |records| ==> r.list.rows[i] == FormatRow(records[i])
    ensures r.(list := c.list) == c
  {
    c.(list := Items(RenderRows(records)))
  }

  /** `selectAddress`: the value becomes the selected text, the box is
      emptied and the host is told once that outputs changed. */
  function SelectAddress(c: Control, selected: string): (r: Control)
    ensures r.value == Some(selected)
    ensures r.box.text == "" && r.box.dirty
    ensures r.notifications == c.notifications + 1
    ensures r.list == c.list && r.labelText == c.labelText && r.property == c.property
    ensures r.requests == c.requests
  {
    c.(value := Some(selected), box := SetText(c.box, ""), notifications := c.notifications + 1)
  }

  /** A click on row `i` of the list selects that row's text. */
  function ClickRow(c: Control, i: nat): (r: Control)
    requires c.list.Items? && i < |c.list.rows|
    ensures r.value == Some(c.list.rows[i])
    ensures r.notifications == c.notifications + 1
  {
    SelectAddress(c, c.list.rows[i])
  }

  /** `updateView`: the value is reloaded from the raw property, the context
      is kept, the box's attribute is emptied and the label shows the
      formatted property. */
  function UpdateView(c: Control, p: AddressProperty): (r: Control)
    ensures r.value == p.raw && r.property == p
    ensures r.labelText == DisplayText(p)
    ensures r.box == SetValueAttribute(c.box, "")
    ensures r.list == c.list && r.requests == c.requests && r.notifications == c.notifications
  {
    c.(value := p.raw, property := p, box := SetValueAttribute(c.box, ""), labelText := DisplayText(p))
  }

  /** `getOutputs`: reports the value, and as a side effect refreshes the
      label, empties the box's attribute and puts the placeholder back in
      the list. */
  function GetOutputs(c: Control): (r: (Control, Outputs))
    ensures r.1.address == c.value
    ensures r.0.list == Message(Placeholder)
    ensures r.0.labelText == DisplayText(c.property)
    ensures r.0.box == SetValueAttribute(c.box, "")
    ensures r.0.value == c.value && r.0.property == c.property
    ensures r.0.requests == c.requests && r.0.notifications == c.notifications
  {
    var next := c.(labelText := DisplayText(c.property),
                   box := SetValueAttribute(c.box, ""),
                   list := Message(Placeholder));
    (next, Outputs(c.value))
  }

  /** Selecting a row and then being asked for outputs reports exactly that
      row's text, leaves the box empty, shows the placeholder and has told
      the host once. */
  lemma SelectThenGetOutputs(c: Control, selected: string)
    ensures GetOutputs(SelectAddress(c, selected)).1 == Outputs(Some(selected))
    ensures GetOutputs(SelectAddress(c, selected)).0.box.text == ""
    ensures GetOutputs(SelectAddress(c, selected)).0.list == Message(Placeholder)
    ensures GetOutputs(SelectAddress(c, selected)).0.notifications == c.notifications + 1
  {
    var s := SelectAddress(c, selected);
    assert s.box.dirty;
  }

  /** Clicking row `i` of a response's rows reports the text formatted from
      record `i`. */
  lemma ClickReportsRecord(c: Control, records: seq<AddressAttributes>, i: nat)
    requires i < |records|
    ensures GetOutputs(ClickRow(ShowResults(c, records), i)).1 == Outputs(Some(FormatRow(records[i])))
  {
    var shown := ShowResults(c, records);
    assert shown.list.rows[i] == FormatRow(records[i]);
    SelectThenGetOutputs(shown, shown.list.rows[i]);
  }

  /** Asking for outputs twice reports the same value and leaves the same
      state. */
  lemma GetOutputsIdempotent(c: Control)
    ensures GetOutputs(GetOutputs(c).0) == GetOutputs(c)
  {
    var first := GetOutputs(c).0;
    assert SetValueAttribute(first.box, "") == first.box;
  }

  /** Text the user typed stays in the box through `getOutputs` and
      `updateView`: both only set the box's attribute, which no longer
      changes a dirty box. */
  lemma TypedTextSurvivesReset(c: Control, typed: string, p: AddressProperty)
    ensures GetOutputs(RefreshData(c, typed)).0.box.text == typed
    ensures UpdateView(RefreshData(c, typed), p).box.text == typed
  {
    assert RefreshData(c, typed).box.dirty;
  }

  /** What holds in every state the control can reach: the label shows the
      formatted property, a message in the list is the placeholder, and
      every issued URL has the query shape. */
  predicate Consistent(c: Control) {
    && c.labelText == DisplayText(c.property)
    && (c.list.Message? ==> c.list.text == Placeholder)
    && forall i :: 0 <= i < |c.requests| ==> IsQueryUrl(c.requests[i])
  }

  /** The events the control reacts to. */
  datatype Event =
    | Typed(text: string)                         // the user edits the search box
    | Response(records: seq<AddressAttributes>)   // a query's response arrives
    | Click(row: nat)                             // the user clicks a row
    | HostUpdate(property: AddressProperty)       // the host calls updateView
    | HostGetOutputs                              // the host calls getOutputs

  /** One event. A click where no such row is shown does nothing. At most
      one URL is issued, earlier ones are kept, and only a click on a shown
      row tells the host that outputs changed. */
  function Step(c: Control, e: Event): (r: Control)
    ensures |c.requests| <= |r.requests| <= |c.requests| + 1
    ensures r.requests[..|c.requests|] == c.requests
    ensures r.notifications
            == c.notifications + (if e.Click? && c.list.Items? && e.row < |c.list.rows| then 1 else 0)
    ensures e.Typed? ==> r.value == Some(e.text)
  {
    match e
    case Typed(t) => RefreshData(c, t)
    case Response(records) => ShowResults(c, records)
    case Click(i) => if c.list.Items? && i < |c.list.rows| then ClickRow(c, i) else c
    case HostUpdate(p) => UpdateView(c, p)
    case HostGetOutputs => GetOutputs(c).0
  }

  /** The events in order. Issued URLs are never withdrawn, and each event
      adds at most one URL and at most one notification. */
  function Run(c: Control, events: seq<Event>): (r: Control)
    ensures |c.requests| <= |r.requests| <= |c.requests| + |events|
    ensures r.requests[..|c.requests|] == c.requests
    ensures c.notifications <= r.notifications <= c.notifications + |events|
    decreases |events|
  {
    if |events| == 0 then c
    else
      var mid := Step(c, events[0]);
      var r := Run(mid, events[1..]);
      assert r.requests[..|c.requests|] == r.requests[..|mid.requests|][..|c.requests|];
      r
  }

  lemma InitConsistent(p: AddressProperty)
    ensures Consistent(Init(p))
  {
  }

  lemma StepConsistent(c: Control, e: Event)
    requires Consistent(c)
    ensures Consistent(Step(c, e))
  {
    match e
    case Typed(t) =>
      if |t| > 0 {
        AppendShaped(c.requests, QueryUrl(t).value);
      }
    case Response(records) =>
    case Click(i) =>
    case HostUpdate(p) =>
    case HostGetOutputs =>
  }

  /** Appending a URL of the query shape keeps every issued URL shaped. */
  lemma AppendShaped(requests: seq<string>, url: string)
    requires forall i :: 0 <= i < |requests| ==> IsQueryUrl(requests[i])
    requires IsQueryUrl(url)
    ensures forall i :: 0 <= i < |requests + [url]| ==> IsQueryUrl((requests + [url])[i])
  {
  }

  /** Every state reached from `init` by any sequence of events is
      consistent; in particular no issued URL ever lacks the base, the `%'`
      ending of its clause or the fixed suffix. */
  lemma {:induction false} RunConsistent(c: Control, events: seq<Event>)
    requires Consistent(c)
    ensures Consistent(Run(c, events))
    decreases |events|
  {
    if |events| > 0 {
      StepConsistent(c, events[0]);
      RunConsistent(Step(c, events[0]), events[1..]);
    }
  }

  /** A session from `init`: every state it reaches is consistent. */
  lemma SessionConsistent(p: AddressProperty, events: seq<Event>)
    ensures Consistent(Run(Init(p), events))
  {
    InitConsistent(p);
    RunConsistent(Init(p), events);
  }
}
