/** The `CountryPicker` component's own logic: the modal's visibility, the
    payload handed to `onChange` when a row is selected, and the jump to the
    first country of a letter. Rendering is not modelled; the host's taps,
    close requests and layout measurements arrive as `Event`s, and what the
    component does to the outside (calling `onChange`, scrolling the list)
    leaves as `Effect`s. The catalog `cat` is the module-level `countries`
    object; the component's `state.cca2List` is never reassigned, so it is
    always `cat.keys`. */
module Picker {
  import opened Wrappers
  import opened JsObject
  import opened Catalog
  import opened Naming
  import opened Alphabet
  import opened Scroll

  /** `this.props` after `defaultProps`: the name translation key and whether a
      close button is rendered. */
  datatype Props = Props(translation: Option<string>, closeable: bool)

  /** One mounted picker: props, `state.modalVisible`, and the instance
      fields `itemHeight`, `listHeight` (`None` when it is `NaN`) and
      `visibleListHeight` (`None` until the list's first layout event). */
  datatype Picker = Picker(
    props: Props,
    modalVisible: bool,
    itemHeight: int,
    listHeight: Option<int>,
    visibleListHeight: Option<int>)

  /** The object handed to `onChange`; `flag` is always `undefined`. */
  datatype Payload = Payload(cca2: string, callingCode: string, flag: Option<string>, name: string, extra: map<string, string>)

  datatype Effect =
    | OnChange(payload: Payload)   // `this.props.onChange(...)`
    | ScrollList(y: int)           // `this._listView.scrollTo({ y })`
    | TypeError                    // an exception thrown out of the handler

  datatype Event =
    | TriggerPressed               // the flag button
    | OpenModalCalled              // a call of `openModal()`
    | RequestClose                 // the modal's `onRequestClose`
    | ClosePressed                 // the close button, rendered when `closeable`
    | RowPressed(code: string)     // a country row
    | LetterPressed(letter: string)
    | Layout(screenHeight: int, offset: int)  // the list's `onLayout`, with `getHeightPercent(100)`

  datatype Reaction = Reaction(next: Picker, effects: seq<Effect>)

  /** Mounting: `defaultProps` supplies `'eng'` for an omitted translation,
      the modal starts hidden and no layout has been measured. `itemHeight` is
      `getHeightPercent(7)`. The list height is a parameter: the code computes
      `ListHeightAsWritten(itemHeight)`, which is `NaN`, and the evidently
      intended height is `Some(ListHeight(|cat.keys|, itemHeight))`. */
  function Init(translation: Option<string>, closeable: bool, itemHeight: int, listHeight: Option<int>): (p: Picker)
    ensures !p.modalVisible
    ensures p.visibleListHeight.None?
    ensures p.props.translation.Some?
    ensures translation.Some? ==> p.props.translation == translation
    ensures translation.None? ==> p.props.translation == Some("eng")
    ensures p.props.closeable == closeable
    ensures p.itemHeight == itemHeight && p.listHeight == listHeight
  {
    var chosen := if translation.Some? then translation else Some("eng");
    Picker(Props(chosen, closeable), false, itemHeight, listHeight, None)
  }

  /** `openModal()` and the trigger's `onPress`: show the modal, nothing else. */
  function Open(p: Picker): (r: Picker)
    ensures r.modalVisible
    ensures r.(modalVisible := p.modalVisible) == p
  {
    p.(modalVisible := true)
  }

  /** `onRequestClose` and the close button: hide the modal, nothing else. */
  function Close(p: Picker): (r: Picker)
    ensures !r.modalVisible
    ensures r.(modalVisible := p.modalVisible) == p
  {
    p.(modalVisible := false)
  }

  /** `setVisibleListHeight(offset)`: the viewport is the screen height below
      the list's top offset. */
  function SetVisibleListHeight(p: Picker, screenHeight: int, offset: int): (r: Picker)
    ensures r.visibleListHeight.Some? && r.visibleListHeight.value + offset == screenHeight
    ensures r.(visibleListHeight := p.visibleListHeight) == p
  {
    p.(visibleListHeight := Some(screenHeight - offset))
  }

  /** Payload properties that have a field of their own in `Payload`; the
      entry's other fields travel in `Payload.extra`. */
  const PayloadFields: set<string> := {"cca2", "callingCode", "flag", "name"}

  /** The `cca2` property of `{cca2, ...country}`: the spread comes second, so
      an entry with a `cca2` field of its own overrides the selected code. */
  function ReportedCode(country: Country, code: string): string {
    if "cca2" in country.extra then country.extra["cca2"] else code
  }

  /** The object literal passed to `onChange` for catalog code `code`. */
  function SelectionPayload(cat: Obj<Country>, props: Props, code: string): (r: Payload)
    requires code in cat.fields
    ensures "cca2" !in cat.fields[code].extra ==> r.cca2 == code
    ensures "cca2" in cat.fields[code].extra ==> r.cca2 == cat.fields[code].extra["cca2"]
    ensures r.flag.None?
    ensures r.callingCode == cat.fields[code].callingCode
    ensures forall k :: k in r.extra <==> k in cat.fields[code].extra && k !in PayloadFields
    ensures forall k :: k in r.extra ==> r.extra[k] == cat.fields[code].extra[k]
    ensures r.name == CountryName(cat.fields[code], None, props.translation)
  {
    var country := cat.fields[code];
    Payload(ReportedCode(country, code), country.callingCode, None,
            CountryName(country, None, props.translation), country.extra - PayloadFields)
  }

  /** `onSelectCountry(cca2)`: hide the modal, then call `onChange` once. A
      code that is neither a catalog key nor inherited from `Object.prototype`
      makes `getCountryName(undefined)` throw before `onChange` is reached;
      inherited names are not modelled and also throw here. */
  function SelectCountry(cat: Obj<Country>, p: Picker, code: string): (r: Reaction)
    ensures r.next == Close(p)
    ensures |r.effects| == 1
    ensures code in cat.fields <==> r.effects[0].OnChange?
    ensures code in cat.fields ==> r.effects[0].payload == SelectionPayload(cat, p.props, code)
    ensures code !in cat.fields ==> r.effects[0] == TypeError
  {
    if code in cat.fields then Reaction(Close(p), [OnChange(SelectionPayload(cat, p.props, code))])
    else Reaction(Close(p), [TypeError])
  }

  /** Once the list has been laid out, a letter tap on a picker with a numeric
      list height never scrolls the end of the list above the bottom of the
      measured viewport. */
  lemma LayoutBoundsScroll(cat: Obj<Country>, p: Picker, screenHeight: int, offset: int, letter: string)
    requires cat.Valid() && p.listHeight.Some?
    ensures var q := SetVisibleListHeight(p, screenHeight, offset);
            ScrollTo(cat, q, letter).Some? ==> ScrollTo(cat, q, letter).value + (screenHeight - offset) <= p.listHeight.value
  {
  }

  /** With the list height as the code computes it, a letter tap scrolls to
      the matched row's own offset whatever the viewport, even past the end. */
  lemma AsWrittenPickerNeverClamps(cat: Obj<Country>, translation: Option<string>, closeable: bool,
                                   itemHeight: int, screenHeight: int, offset: int, letter: string)
    requires cat.Valid()
    ensures var p := SetVisibleListHeight(Init(translation, closeable, itemHeight, ListHeightAsWritten(itemHeight)), screenHeight, offset);
            ScrollTo(cat, p, letter).Some? ==> ScrollTo(cat, p, letter).value == LetterIndex(cat, letter).value * itemHeight
  {
  }

  /** With the corrected list height, a measured viewport at least one row
      high and the list at least one viewport high, a tap on a letter whose
      first matching row is `row` scrolls, brings that row fully into view and
      does not scroll above the list's top. */
  lemma CorrectedPickerShowsTargetRow(cat: Obj<Country>, translation: Option<string>, closeable: bool,
                                      itemHeight: int, screenHeight: int, offset: int, letter: string, row: nat)
    requires cat.Valid() && LetterIndex(cat, letter) == Some(row)
    requires 0 <= itemHeight <= screenHeight - offset <= ListHeight(|cat.keys|, itemHeight)
    ensures var y := ScrollTo(cat, SetVisibleListHeight(Init(translation, closeable, itemHeight, Some(ListHeight(|cat.keys|, itemHeight))), screenHeight, offset), letter);
            y.Some? && 0 <= y.value <= row * itemHeight && (row + 1) * itemHeight <= y.value + (screenHeight - offset)
  {
    CorrectedNeverPastEnd(|cat.keys|, itemHeight, row, screenHeight - offset);
  }

  /** The payload agrees with the `getAllCountries()` entry for the same code
      on the calling code and the other fields, drops `flag`, and resolves
      `name` to a string; it reports the same `cca2` unless the entry has a
      `cca2` field of its own. */
  lemma PayloadAgreesWithListing(cat: Obj<Country>, props: Props, code: string)
    requires cat.Valid() && code in cat.fields
    ensures code in GetAllCountries(cat).fields
    ensures var listed := GetAllCountries(cat).fields[code];
            var payload := SelectionPayload(cat, props, code);
            && ("cca2" !in listed.country.extra ==> payload.cca2 == listed.cca2)
            && payload.callingCode == listed.country.callingCode
            && payload.extra == listed.country.extra - PayloadFields
            && payload.name == CountryName(listed.country, None, props.translation)
            && payload.flag.None?
  {
  }

  /** `getAllCountries()` puts `cca2` after the spread and `onSelectCountry`
      before it, so for an entry carrying its own `cca2` the two disagree:
      the listing says "FR", the `onChange` payload says "XX". */
  lemma OwnCca2FieldOverridesSelection(props: Props)
    ensures var cat := Obj(["FR"], map["FR" := Country("33", "flag-fr", Names("France", map[]), map["cca2" := "XX"])]);
            && cat.Valid()
            && GetAllCountries(cat).fields["FR"].cca2 == "FR"
            && SelectionPayload(cat, props, "FR").cca2 == "XX"
  {
    var cat := Obj(["FR"], map["FR" := Country("33", "flag-fr", Names("France", map[]), map["cca2" := "XX"])]);
    assert cat.Valid();
  }

  /** `name.common[0]`: the first character as a string, `undefined` for an
      empty name. Characters are Unicode scalar values, so for a name that
      starts outside the Basic Multilingual Plane this is the whole character
      where JavaScript yields the first UTF-16 code unit. */
  function FirstChar(name: string): (r: Option<string>)
    ensures r.Some? <==> |name| > 0
    ensures r.Some? ==> r.value == name[..1]
  {
    if |name| == 0 then None else Some([name[0]])
  }

  /** `name` begins with the one-character string `letter`. */
  predicate StartsWith(name: string, letter: string) {
    |name| > 0 && |letter| == 1 && name[0] == letter[0]
  }

  /** `name.common[0] === letter` holds exactly when the name starts with the letter. */
  lemma FirstCharMatches(name: string, letter: string)
    ensures FirstChar(name) == Some(letter) <==> StartsWith(name, letter)
  {
    if StartsWith(name, letter) {
      assert letter == [name[0]];
    }
  }

  /** The common name of the catalog entry in row `i`. */
  function CommonName(cat: Obj<Country>, i: int): string
    requires cat.Valid() && 0 <= i < |cat.keys|
  {
    cat.fields[cat.keys[i]].name.common
  }

  /** `this.state.cca2List.map(country => countries[country].name.common[0])`. */
  function Heads(cat: Obj<Country>): (r: seq<Option<string>>)
    requires cat.Valid()
    ensures |r| == |cat.keys|
    ensures forall i :: 0 <= i < |r| ==> (r[i] == FirstChar(CommonName(cat, i)))
  {
    seq(|cat.keys|, i requires 0 <= i < |cat.keys| => FirstChar(CommonName(cat, i)))
  }

  /** The row `scrollTo(letter)` targets: the first whose common name starts
      with `letter`, or none. */
  function LetterIndex(cat: Obj<Country>, letter: string): (r: Option<nat>)
    requires cat.Valid()
    ensures r.Some? ==> r.value < |cat.keys| && StartsWith(CommonName(cat, r.value), letter)
    ensures r.Some? ==> forall j :: 0 <= j < r.value ==> !StartsWith(CommonName(cat, j), letter)
    ensures r.None? <==> forall j :: 0 <= j < |cat.keys| ==> !StartsWith(CommonName(cat, j), letter)
  {
    var heads := Heads(cat);
    var i := IndexOf(heads, Some(letter));
    assert forall j :: 0 <= j < |heads| ==> (heads[j] == Some(letter) <==> StartsWith(CommonName(cat, j), letter)) by {
      forall j | 0 <= j < |heads| {
        FirstCharMatches(CommonName(cat, j), letter);
      }
    }
    if i == -1 then
      assert forall j :: 0 <= j < |heads| ==> heads[j] != Some(letter);
      None
    else Some(i)
  }

  /** The matched row's offset plus the viewport height exceeds the list height. */
  predicate Overshoots(cat: Obj<Country>, p: Picker, letter: string)
    requires cat.Valid() && LetterIndex(cat, letter).Some? && p.visibleListHeight.Some? && p.listHeight.Some?
  {
    LetterIndex(cat, letter).value * p.itemHeight + p.visibleListHeight.value > p.listHeight.value
  }

  /** `scrollTo(letter)`: `None` when it returns without scrolling, otherwise
      the `y` it scrolls to. */
  function ScrollTo(cat: Obj<Country>, p: Picker, letter: string): (r: Option<int>)
    requires cat.Valid()
    ensures r.None? <==> LetterIndex(cat, letter).None?
    ensures r.Some? && LetterIndex(cat, letter).Some? ==> r.value <= LetterIndex(cat, letter).value * p.itemHeight
    ensures r.Some? && LetterIndex(cat, letter).Some? && (p.visibleListHeight.None? || p.listHeight.None?) ==>
              r.value == LetterIndex(cat, letter).value * p.itemHeight
    ensures r.Some? && p.visibleListHeight.Some? && p.listHeight.Some? ==>
              r.value + p.visibleListHeight.value <= p.listHeight.value
    ensures r.Some? && LetterIndex(cat, letter).Some? && p.visibleListHeight.Some? && p.listHeight.Some? &&
            Overshoots(cat, p, letter) ==>
              r.value == p.listHeight.value - p.visibleListHeight.value
    ensures r.Some? && LetterIndex(cat, letter).Some? && p.visibleListHeight.Some? && p.listHeight.Some? &&
            !Overshoots(cat, p, letter) ==>
              r.value == LetterIndex(cat, letter).value * p.itemHeight
  {
    match LetterIndex(cat, letter)
    case None => None
    case Some(index) => Some(ClampOffset(index * p.itemHeight, p.visibleListHeight, p.listHeight))
  }

  /** Catalog ["AF", "AL", "DZ"] named Afghanistan, Albania, Algeria. */
  function SampleCatalog(): (cat: Obj<Country>)
    ensures cat.Valid() && |cat.keys| == 3
    ensures CommonName(cat, 0) == "Afghanistan" && CommonName(cat, 1) == "Albania" && CommonName(cat, 2) == "Algeria"
  {
    Obj(["AF", "AL", "DZ"], map[
      "AF" := Country("93", "flag-af", Names("Afghanistan", map[]), map[]),
      "AL" := Country("355", "flag-al", Names("Albania", map[]), map[]),
      "DZ" := Country("213", "flag-dz", Names("Algeria", map[]), map[])])
  }

  /** In the sample catalog "A" targets row 0, not Albania's or Algeria's row,
      and "Z", which no name starts with, scrolls nowhere. */
  lemma ScrollExamples(p: Picker)
    ensures LetterIndex(SampleCatalog(), "A") == Some(0)
    ensures ScrollTo(SampleCatalog(), p, "A").Some?
    ensures ScrollTo(SampleCatalog(), p, "Z") == None
  {
    var cat := SampleCatalog();
    assert StartsWith(CommonName(cat, 0), "A");
    assert forall j :: 0 <= j < 3 ==> !StartsWith(CommonName(cat, j), "Z");
  }

  /** Every rail letter that some common name starts with scrolls, and one
      that none starts with does not. */
  lemma RailLetterScrollsIffNameStartsWith(cat: Obj<Country>, p: Picker, i: int)
    requires cat.Valid() && 0 <= i < 26
    ensures ScrollTo(cat, p, Letters()[i]).Some? <==>
              exists j :: 0 <= j < |cat.keys| && |CommonName(cat, j)| > 0 && CommonName(cat, j)[0] == ('A' as int + i) as char
  {
    var letter := Letters()[i];
    assert letter == [('A' as int + i) as char];
    forall j | 0 <= j < |cat.keys|
      ensures StartsWith(CommonName(cat, j), letter) <==>
                (|CommonName(cat, j)| > 0 && CommonName(cat, j)[0] == ('A' as int + i) as char)
    {
    }
  }

  /** The component's response to one host event. */
  function Step(cat: Obj<Country>, p: Picker, e: Event): (r: Reaction)
    requires cat.Valid()
    ensures r.next.props == p.props
    ensures |r.effects| <= 1
    ensures r.next.modalVisible == (if Opens(e) then true else if Closes(e, p.props.closeable) then false else p.modalVisible)
    ensures forall k :: 0 <= k < |r.effects| && r.effects[k].OnChange? ==>
              e.RowPressed? && e.code in cat.fields && r.effects[k].payload == SelectionPayload(cat, p.props, e.code)
    ensures e.RowPressed? && e.code in cat.fields ==> exists k :: 0 <= k < |r.effects| && r.effects[k].OnChange?
    ensures e.RowPressed? && e.code !in cat.fields ==> r.effects == [TypeError]
    ensures Opens(e) || e.RequestClose? || e.ClosePressed? ==> r.effects == []
    ensures e.LetterPressed? ==>
              r.next == p && r.effects == (if ScrollTo(cat, p, e.letter).Some? then [ScrollList(ScrollTo(cat, p, e.letter).value)] else [])
    ensures e.Layout? ==> r.next == SetVisibleListHeight(p, e.screenHeight, e.offset) && r.effects == []
    ensures r.next.itemHeight == p.itemHeight && r.next.listHeight == p.listHeight
    ensures !e.Layout? ==> r.next.visibleListHeight == p.visibleListHeight
  {
    match e
    case TriggerPressed => Reaction(Open(p), [])
    case OpenModalCalled => Reaction(Open(p), [])
    case RequestClose => Reaction(Close(p), [])
    case ClosePressed => if p.props.closeable then Reaction(Close(p), []) else Reaction(p, [])
    case RowPressed(code) => SelectCountry(cat, p, code)
    case LetterPressed(letter) =>
      var target := ScrollTo(cat, p, letter);
      if target.None? then Reaction(p, []) else Reaction(p, [ScrollList(target.value)])
    case Layout(screenHeight, offset) => Reaction(SetVisibleListHeight(p, screenHeight, offset), [])
  }

  /** Events that show the modal. */
  predicate Opens(e: Event) {
    e.TriggerPressed? || e.OpenModalCalled?
  }

  /** Events that hide it; the close button exists only when `closeable`. */
  predicate Closes(e: Event, closeable: bool) {
    e.RequestClose? || (e.ClosePressed? && closeable) || e.RowPressed?
  }

  /** The component after a sequence of events, with every effect in order. */
  function Run(cat: Obj<Country>, p: Picker, es: seq<Event>): (r: Reaction)
    requires cat.Valid()
    ensures r.next.props == p.props
    ensures r.next.itemHeight == p.itemHeight && r.next.listHeight == p.listHeight
    ensures |r.effects| <= |es|
  {
    if |es| == 0 then Reaction(p, [])
    else
      var before := Run(cat, p, es[..|es| - 1]);
      var last := Step(cat, before.next, es[|es| - 1]);
      Reaction(last.next, before.effects + last.effects)
  }

  /** Some event of `es` opens the modal and none after it closes it. */
  ghost predicate OpenedLast(es: seq<Event>, closeable: bool) {
    exists i :: 0 <= i < |es| && Opens(es[i]) && forall j :: i < j < |es| ==> !Closes(es[j], closeable)
  }

  /** No event of `es` closes the modal. */
  ghost predicate NeverClosed(es: seq<Event>, closeable: bool) {
    forall j :: 0 <= j < |es| ==> !Closes(es[j], closeable)
  }

  /** An event that neither opens nor closes leaves both run predicates as they were. */
  lemma NeutralEventKeepsHistory(es: seq<Event>, closeable: bool)
    requires |es| > 0
    requires !Opens(es[|es| - 1]) && !Closes(es[|es| - 1], closeable)
    ensures OpenedLast(es, closeable) <==> OpenedLast(es[..|es| - 1], closeable)
    ensures NeverClosed(es, closeable) <==> NeverClosed(es[..|es| - 1], closeable)
  {
    var init := es[..|es| - 1];
    if OpenedLast(es, closeable) {
      var i :| 0 <= i < |es| && Opens(es[i]) && forall j :: i < j < |es| ==> !Closes(es[j], closeable);
      assert i < |init| && init[i] == es[i];
      assert forall j :: i < j < |init| ==> init[j] == es[j];
    }
    if OpenedLast(init, closeable) {
      var i :| 0 <= i < |init| && Opens(init[i]) && forall j :: i < j < |init| ==> !Closes(init[j], closeable);
      assert Opens(es[i]);
      assert forall j :: i < j < |init| ==> init[j] == es[j];
    }
    if NeverClosed(init, closeable) {
      assert forall j :: 0 <= j < |init| ==> init[j] == es[j];
    }
  }

  /** A closing last event leaves no open-and-not-closed history. */
  lemma ClosingEventEndsHistory(es: seq<Event>, closeable: bool)
    requires |es| > 0 && Closes(es[|es| - 1], closeable)
    ensures !OpenedLast(es, closeable) && !NeverClosed(es, closeable)
  {
  }

  /** After any run the modal is visible exactly when it was opened and not
      closed since, or was visible to begin with and never closed. */
  lemma {:induction false} RunVisibility(cat: Obj<Country>, p: Picker, es: seq<Event>)
    requires cat.Valid()
    ensures Run(cat, p, es).next.modalVisible <==>
              OpenedLast(es, p.props.closeable) || (p.modalVisible && NeverClosed(es, p.props.closeable))
  {
    var c := p.props.closeable;
    if |es| == 0 {
      assert !OpenedLast(es, c) && NeverClosed(es, c);
    } else {
      var n := |es| - 1;
      RunVisibility(cat, p, es[..n]);
      if Opens(es[n]) {
        assert OpenedLast(es, c);
      } else if Closes(es[n], c) {
        ClosingEventEndsHistory(es, c);
      } else {
        NeutralEventKeepsHistory(es, c);
      }
    }
  }

  /** The codes reported for the catalog rows pressed in `es`, in order. */
  function SelectedCodes(cat: Obj<Country>, es: seq<Event>): seq<string> {
    if |es| == 0 then []
    else
      var e := es[|es| - 1];
      SelectedCodes(cat, es[..|es| - 1]) +
        if e.RowPressed? && e.code in cat.fields then [ReportedCode(cat.fields[e.code], e.code)] else []
  }

  /** The `cca2` of every `onChange` call among `effects`, in order. */
  function ChangedCodes(effects: seq<Effect>): seq<string> {
    if |effects| == 0 then []
    else
      var f := effects[|effects| - 1];
      ChangedCodes(effects[..|effects| - 1]) + if f.OnChange? then [f.payload.cca2] else []
  }

  lemma {:induction false} ChangedCodesAppend(a: seq<Effect>, b: seq<Effect>)
    ensures ChangedCodes(a + b) == ChangedCodes(a) + ChangedCodes(b)
    decreases |b|
  {
    if |b| == 0 {
      assert a + b == a;
    } else {
      assert (a + b)[..|a + b| - 1] == a + b[..|b| - 1];
      assert (a + b)[|a + b| - 1] == b[|b| - 1];
      ChangedCodesAppend(a, b[..|b| - 1]);
    }
  }

  /** One event calls `onChange` with the pressed row's reported code when it
      is a catalog row press, and not at all otherwise. */
  lemma StepCallbacks(cat: Obj<Country>, p: Picker, e: Event)
    requires cat.Valid()
    ensures ChangedCodes(Step(cat, p, e).effects) ==
              if e.RowPressed? && e.code in cat.fields then [ReportedCode(cat.fields[e.code], e.code)] else []
  {
    var effects := Step(cat, p, e).effects;
    if |effects| == 1 {
      assert effects[..0] == [];
    }
  }

  /** `onChange` fires exactly once per press on a catalog row, in press
      order, and never otherwise. */
  lemma {:induction false} RunCallbacks(cat: Obj<Country>, p: Picker, es: seq<Event>)
    requires cat.Valid()
    ensures ChangedCodes(Run(cat, p, es).effects) == SelectedCodes(cat, es)
  {
    if |es| > 0 {
      var n := |es| - 1;
      var before := Run(cat, p, es[..n]);
      var last := Step(cat, before.next, es[n]);
      RunCallbacks(cat, p, es[..n]);
      ChangedCodesAppend(before.effects, last.effects);
      StepCallbacks(cat, before.next, es[n]);
    }
  }
}
