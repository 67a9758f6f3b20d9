/** The preview builder `createAttachment`: a fetched work item becomes the
    chat platform's attachment card. */
module Preview {
  import opened Wrappers
  import opened Errors
  import Sanitizer
  import Contact

  /** A fetched work item: its numeric id and its field map. A field the
      map lacks is JavaScript's `undefined`. */
  datatype WorkItem = WorkItem(id: int, fields: map<string, string>)

  /** One entry of the card's field list. `None` is a value the source
      reads as `undefined`. */
  datatype CardField = CardField(title: string, value: Option<string>, short: bool)

  /** The attachment card, without its `ts` timestamp. `None` is a
      property whose value is `undefined`, which the serialised card omits. */
  datatype Attachment = Attachment(
    color: Option<string>,
    pretext: Option<string>,
    authorName: string,
    title: string,
    text: string,
    fields: seq<CardField>,
    footer: string)

  const TypeField: string := "System.WorkItemType"
  const TitleField: string := "System.Title"
  const StateField: string := "System.State"
  const SeverityField: string := "Microsoft.VSTS.Common.Severity"
  const CreatedByField: string := "System.CreatedBy"
  const ReproStepsField: string := "Microsoft.VSTS.TCM.ReproSteps"
  const DescriptionField: string := "System.Description"
  const BoardLaneField: string := "System.BoardLane"

  /** The card colour of each work-item type. */
  const Colors: map<string, string> := map[
    "Epic" := "#ff7b00",
    "Feature" := "#773b93",
    "User Story" := "#009ccc",
    "Bug" := "#cc293d",
    "Request" := "#339947",
    "Task" := "#f2cb1d"
  ]

  /** The emoji of each work-item type. */
  const Emoji: map<string, string> := map[
    "Epic" := ":crown:",
    "Feature" := ":trophy:",
    "User Story" := ":book:",
    "Bug" := ":glitch_crab:",
    "Request" := ":memo:",
    "Task" := ":spiral_note_pad:"
  ]

  /** A card colour: '#' and six hexadecimal digits. */
  predicate IsHexColor(c: string)
  {
    |c| == 7 && c[0] == '#' && forall j :: 1 <= j < 7 ==> ('0' <= c[j] <= '9' || 'a' <= c[j] <= 'f')
  }

  /** An emoji shortcode: a name between two ':'. */
  predicate IsShortcode(e: string)
  {
    |e| >= 3 && e[0] == ':' && e[|e| - 1] == ':' && ':' !in e[1..|e| - 1]
  }

  /** Every colour of the table is a hexadecimal colour code. */
  lemma ColorsAreHexCodes()
    ensures forall t :: t in Colors ==> IsHexColor(Colors[t])
  {
  }

  /** Every emoji of the table is a shortcode. */
  lemma EmojiAreShortcodes()
    ensures forall t :: t in Emoji ==> IsShortcode(Emoji[t])
  {
  }

  /** `m[key]`, `undefined` for a missing key. */
  function Lookup(m: map<string, string>, key: string): (r: Option<string>)
    ensures r.Some? <==> key in m
    ensures r.Some? ==> r.value == m[key]
  {
    if key in m then Some(m[key]) else None
  }

  /** `workitem.fields[key]`: the field's value, `undefined` when the
      work item lacks the field. */
  function Get(item: WorkItem, key: string): (r: Option<string>)
    ensures r.Some? <==> key in item.fields
    ensures r.Some? ==> r.value == item.fields[key]
  {
    Lookup(item.fields, key)
  }

  /** A value as string concatenation renders it: `undefined` becomes the
      text "undefined". */
  function ConcatText(v: Option<string>): (r: string)
    ensures v.None? ==> r == "undefined"
    ensures v.Some? ==> r == v.value
  {
    match v
    case None => "undefined"
    case Some(s) => s
  }

  // ---------------------------------------------------------------------------
  // toUpperCase and the rendering of the numeric id
  // ---------------------------------------------------------------------------

  predicate IsLowerAscii(c: char)
  {
    'a' <= c <= 'z'
  }

  function UpperChar(c: char): char
  {
    if IsLowerAscii(c) then (c as int - 32) as char else c
  }

  /** `toUpperCase` on ASCII letters: every lower-case letter becomes its
      capital, every other character stays. */
  function UpperAscii(s: string): (r: string)
    ensures |r| == |s|
    ensures forall i :: 0 <= i < |s| ==> !IsLowerAscii(r[i])
    ensures forall i :: 0 <= i < |s| && !IsLowerAscii(s[i]) ==> r[i] == s[i]
    ensures forall i :: 0 <= i < |s| && IsLowerAscii(s[i]) ==> r[i] as int == s[i] as int - 32
  {
    seq(|s|, i requires 0 <= i < |s| => UpperChar(s[i]))
  }

  function DigitChar(d: nat): (c: char)
    requires d < 10
  {
    ('0' as int + d) as char
  }

  /** The decimal numeral of a natural number, without leading zeros. */
  function NatToDecimal(n: nat): (r: string)
    ensures |r| > 0 && AllDigits(r)
    decreases n
  {
    if n < 10 then [DigitChar(n)] else NatToDecimal(n / 10) + [DigitChar(n % 10)]
  }

  predicate AllDigits(s: string)
  {
    forall i :: 0 <= i < |s| ==> '0' <= s[i] <= '9'
  }

  /** The number a numeral denotes. */
  function DecimalValue(s: string): nat
    requires AllDigits(s)
    decreases |s|
  {
    if |s| == 0 then 0
    else DecimalValue(s[..|s| - 1]) * 10 + (s[|s| - 1] as int - '0' as int)
  }

  /** The numeral denotes the number, and has no leading zero. */
  lemma {:induction false} NatToDecimalRoundTrip(n: nat)
    ensures DecimalValue(NatToDecimal(n)) == n
    ensures NatToDecimal(n)[0] == '0' ==> n == 0
    decreases n
  {
    if n >= 10 {
      NatToDecimalRoundTrip(n / 10);
      var r := NatToDecimal(n);
      assert r[..|r| - 1] == NatToDecimal(n / 10);
      assert r[0] == NatToDecimal(n / 10)[0];
    }
  }

  /** How string concatenation renders an integer work-item id. */
  function IntToDecimal(n: int): (r: string)
    ensures |r| > 0 && (n < 0 <==> r[0] == '-')
  {
    if n < 0 then "-" + NatToDecimal(-n) else NatToDecimal(n)
  }

  // ---------------------------------------------------------------------------
  // createAttachment
  // ---------------------------------------------------------------------------

  /** `createAttachment`: builds the card with its three fixed fields, then
      pushes "Deployed To" for a Bug or User Story whose state is not
      "New". Fails where the source throws: `toUpperCase` on a missing
      type, or `toMailto` on a malformed creator. */
  method CreateAttachment(item: WorkItem) returns (r: Result<Attachment, Error>)
    ensures Get(item, TypeField).None? <==> r == Failure(MissingWorkItemType)
    ensures Get(item, TypeField).Some? ==>
              (r.Failure? <==> Contact.ToMailto(Get(item, CreatedByField)).Failure?)
    ensures r.Failure? ==> r.error == MissingWorkItemType || r.error == MalformedContact
    ensures r.Success? ==> TypeField in item.fields
    // colour and emoji come from the tables; an unlisted type has neither
    ensures r.Success? ==> r.value.color == Lookup(Colors, item.fields[TypeField])
    ensures r.Success? ==>
              (r.value.authorName ==
                 ConcatText(Lookup(Emoji, item.fields[TypeField])) + " " +
                 UpperAscii(item.fields[TypeField]) + " " + IntToDecimal(item.id))
    ensures r.Success? ==> r.value.pretext == Get(item, TitleField)
    ensures r.Success? ==> r.value.title == "Discription" && r.value.footer == "Created"
    // the body: repro steps for a Bug, the description otherwise
    ensures r.Success? ==>
              (r.value.text ==
                 Sanitizer.Decoded(Sanitizer.RemoveHtml(
                   Get(item, if item.fields[TypeField] == "Bug" then ReproStepsField else DescriptionField))))
    // the field list: State, Severity, Created By, and maybe Deployed To
    ensures r.Success? ==> 3 <= |r.value.fields| <= 4
    ensures r.Success? ==> r.value.fields[0] == CardField("State", Get(item, StateField), false)
    ensures r.Success? ==> r.value.fields[1] == CardField("Severity", Get(item, SeverityField), false)
    ensures r.Success? ==>
              (r.value.fields[2] ==
                 CardField("Created By", Some(Contact.ToMailto(Get(item, CreatedByField)).value), false))
    ensures r.Success? ==>
              (|r.value.fields| == 4 <==>
                Get(item, StateField) != Some("New") &&
                (item.fields[TypeField] == "Bug" || item.fields[TypeField] == "User Story"))
    ensures r.Success? && |r.value.fields| == 4 ==>
              r.value.fields[3] == CardField("Deployed To", Get(item, BoardLaneField), false)
    ensures r.Success? ==> forall f :: f in r.value.fields ==> !f.short
  {
    var colors, emoji := Colors, Emoji;
    var workType := Get(item, TypeField);
    if workType.None? {
      return Failure(MissingWorkItemType);
    }
    var t := workType.value;
    var authorName := ConcatText(Lookup(emoji, t)) + " " + UpperAscii(t) + " " + IntToDecimal(item.id);
    var text;
    if t == "Bug" {
      text := Sanitizer.FormatText(Get(item, ReproStepsField));
    } else {
      text := Sanitizer.FormatText(Get(item, DescriptionField));
    }
    var createdBy := Contact.ToMailto(Get(item, CreatedByField));
    if createdBy.Failure? {
      return Failure(createdBy.error);
    }
    var attachment := Attachment(
      Lookup(colors, t),
      Get(item, TitleField),
      authorName,
      "Discription",
      text,
      [ CardField("State", Get(item, StateField), false),
        CardField("Severity", Get(item, SeverityField), false),
        CardField("Created By", Some(createdBy.value), false) ],
      "Created");
    if Get(item, StateField) != Some("New") && (t == "Bug" || t == "User Story") {
      attachment := attachment.(fields := attachment.fields + [CardField("Deployed To", Get(item, BoardLaneField), false)]);
    }
    return Success(attachment);
  }

  /** Both tables list the same six work-item types. What a card of any
      other type looks like is stated by CreateAttachment's ensures. */
  lemma TablesListTheSameTypes()
    ensures Colors.Keys == Emoji.Keys == {"Epic", "Feature", "User Story", "Bug", "Request", "Task"}
  {
  }
}
