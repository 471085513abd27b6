/** What a scanned QR payload does to the registration page (`handleQrResult` and
    `populateInputFieldsFromQrData` in libs/js/utils/tulip-qr-scanner.js). The page is an
    append-only log of effects: a write into an input field, the success image, and the
    submit click scheduled after a delay. `decodeURIComponent` is a parameter: a partial
    function whose `None` stands for the URIError it throws. */
module QrScanner {

  import opened Wrappers
  import opened QrPayload

  /** The parts of a flow's QR configuration that the handler reads. */
  datatype QrConfig = QrConfig(
    userNameField: string,
    firstNameField: string,
    lastNameField: string,
    successImageContainerId: string,
    submitButtonId: string,
    submitButtonDelay: int)

  datatype Effect =
    | WriteField(fieldId: string, value: string)
    | ShowSuccessImage(containerId: string)
    | ScheduleClick(buttonId: string, delay: int)

  /** The effects of one scan result in order, and whether the handler threw. */
  datatype Reaction = Reaction(effects: seq<Effect>, threw: bool)

  /** A group that took part and is not empty: what `if (match[k])` lets through. */
  predicate Given(g: Option<string>)
  {
    g.Some? && g.value != ""
  }

  /** The field writes that filling the form from a match performs: the id verbatim into the
      user-name field, then each given name group percent-decoded into its field, stopping at
      the first decoding that fails. */
  function Populate(m: QrMatch, cfg: QrConfig, decode: string -> Option<string>): (r: Reaction)
    ensures forall i :: 0 <= i < |r.effects| ==> r.effects[i].WriteField?
    ensures m.id != "" ==> |r.effects| >= 1 && r.effects[0] == WriteField(cfg.userNameField, m.id)
  {
    var user := if m.id != "" then [WriteField(cfg.userNameField, m.id)] else [];
    if Given(m.firstName) && decode(m.firstName.value).None? then
      Reaction(user, true)
    else
      var first := if Given(m.firstName) then [WriteField(cfg.firstNameField, decode(m.firstName.value).value)] else [];
      if Given(m.lastName) && decode(m.lastName.value).None? then
        Reaction(user + first, true)
      else
        var last := if Given(m.lastName) then [WriteField(cfg.lastNameField, decode(m.lastName.value).value)] else [];
        Reaction(user + first + last, false)
  }

  /** After the form is filled without a throw: the success image, then one submit click
      scheduled after the configured delay. */
  function Finish(p: Reaction, cfg: QrConfig): Reaction
  {
    if p.threw then p
    else Reaction(p.effects + [ShowSuccessImage(cfg.successImageContainerId),
                               ScheduleClick(cfg.submitButtonId, cfg.submitButtonDelay)], false)
  }

  /** A matching payload fills the form, then shows the success image, then schedules one
      submit click; a payload that does not match does nothing. */
  function Handle(qrData: string, cfg: QrConfig, decode: string -> Option<string>): (r: Reaction)
    ensures Match(qrData).None? ==> r == Reaction([], false)
    ensures Match(qrData).Some? ==> |r.effects| >= 1 && r.effects[0] == WriteField(cfg.userNameField, Match(qrData).value.id)
  {
    match Match(qrData)
    case None => Reaction([], false)
    case Some(m) => Finish(Populate(m, cfg, decode), cfg)
  }

  /** How many submit clicks a log schedules. */
  function Clicks(log: seq<Effect>): nat
  {
    if log == [] then 0 else Clicks(log[..|log| - 1]) + (if log[|log| - 1].ScheduleClick? then 1 else 0)
  }

  lemma {:induction false} ClicksAppend(a: seq<Effect>, b: seq<Effect>)
    ensures Clicks(a + b) == Clicks(a) + Clicks(b)
  {
    if b != [] {
      ClicksAppend(a, b[..|b| - 1]);
      assert (a + b)[..|a + b| - 1] == a + b[..|b| - 1];
    } else {
      assert a + b == a;
    }
  }

  /** A log with no scheduled click counts none. */
  lemma {:induction false} NoClickNoCount(log: seq<Effect>)
    requires forall i :: 0 <= i < |log| ==> log[i].WriteField?
    ensures Clicks(log) == 0
  {
    if log != [] {
      NoClickNoCount(log[..|log| - 1]);
    }
  }

  /** Filling the form only writes fields, so it schedules no click. */
  lemma PopulateSchedulesNoClick(m: QrMatch, cfg: QrConfig, decode: string -> Option<string>)
    ensures forall i :: 0 <= i < |Populate(m, cfg, decode).effects| ==> Populate(m, cfg, decode).effects[i].WriteField?
    ensures Clicks(Populate(m, cfg, decode).effects) == 0
  {
    var effects := Populate(m, cfg, decode).effects;
    assert forall i :: 0 <= i < |effects| ==> effects[i].WriteField?;
    NoClickNoCount(effects);
  }

  /** A payload that does not match writes nothing, shows nothing and schedules nothing. */
  lemma NonMatchingIsIgnored(qrData: string, cfg: QrConfig, decode: string -> Option<string>)
    requires Match(qrData).None?
    ensures Handle(qrData, cfg, decode) == Reaction([], false)
  {
  }

  /** Finishing a form fill that wrote only fields adds one click, as the last effect right
      after the success image, unless the fill threw. */
  lemma FinishOneClick(p: Reaction, cfg: QrConfig)
    requires Clicks(p.effects) == 0
    ensures var r := Finish(p, cfg);
            Clicks(r.effects) == (if r.threw then 0 else 1) && r.threw == p.threw
    ensures var r := Finish(p, cfg);
            !r.threw ==>
              |r.effects| >= 2 &&
              r.effects[|r.effects| - 2] == ShowSuccessImage(cfg.successImageContainerId) &&
              r.effects[|r.effects| - 1] == ScheduleClick(cfg.submitButtonId, cfg.submitButtonDelay)
  {
    if !p.threw {
      var tail := [ShowSuccessImage(cfg.successImageContainerId), ScheduleClick(cfg.submitButtonId, cfg.submitButtonDelay)];
      assert Clicks(tail[..1]) == 0 by {
        assert tail[..1][..0] == [];
      }
      ClicksAppend(p.effects, tail);
    }
  }

  /** Exactly one submit click is scheduled when the payload matches and every given name
      decodes, and none otherwise; a scheduled click is always the last effect, right after the
      success image. */
  lemma OneClickOnSuccess(qrData: string, cfg: QrConfig, decode: string -> Option<string>)
    ensures var r := Handle(qrData, cfg, decode);
            Clicks(r.effects) == (if Match(qrData).Some? && !r.threw then 1 else 0)
    ensures var r := Handle(qrData, cfg, decode);
            Clicks(r.effects) == 1 ==>
              |r.effects| >= 2 &&
              r.effects[|r.effects| - 2] == ShowSuccessImage(cfg.successImageContainerId) &&
              r.effects[|r.effects| - 1] == ScheduleClick(cfg.submitButtonId, cfg.submitButtonDelay)
  {
    var found := Match(qrData);
    if found.Some? {
      var p := Populate(found.value, cfg, decode);
      PopulateSchedulesNoClick(found.value, cfg, decode);
      FinishOneClick(p, cfg);
      assert Handle(qrData, cfg, decode) == Finish(p, cfg);
    }
  }

  /** When the payload matches and every given name decodes, the fields are written in the
      order user name, first name, last name, the user name gets the id verbatim, and a name
      field is written only when its group is present and not empty. */
  lemma WritesOnSuccess(qrData: string, cfg: QrConfig, decode: string -> Option<string>, m: QrMatch)
    requires Match(qrData) == Some(m)
    requires Given(m.firstName) ==> decode(m.firstName.value).Some?
    requires Given(m.lastName) ==> decode(m.lastName.value).Some?
    ensures var r := Handle(qrData, cfg, decode);
            !r.threw &&
            r.effects ==
              [WriteField(cfg.userNameField, m.id)]
              + (if Given(m.firstName) then [WriteField(cfg.firstNameField, decode(m.firstName.value).value)] else [])
              + (if Given(m.lastName) then [WriteField(cfg.lastNameField, decode(m.lastName.value).value)] else [])
              + [ShowSuccessImage(cfg.successImageContainerId), ScheduleClick(cfg.submitButtonId, cfg.submitButtonDelay)]
  {
    MatchSound(qrData);
  }

  /** If the first name fails to decode, the user name has already been written and nothing
      else happens: no other field, no success image, no click. */
  lemma FirstNameDecodeFailure(qrData: string, cfg: QrConfig, decode: string -> Option<string>, m: QrMatch)
    requires Match(qrData) == Some(m)
    requires Given(m.firstName) && decode(m.firstName.value).None?
    ensures Handle(qrData, cfg, decode) == Reaction([WriteField(cfg.userNameField, m.id)], true)
  {
    MatchSound(qrData);
  }

  /** The page, seen as the log of effects the handler has produced. */
  class ScannerPage {
    var log: seq<Effect>

    constructor ()
      ensures log == []
    {
      log := [];
    }

    /** `populateInputFieldsFromQrData`: writes the fields one at a time; a failed decoding
        throws after the writes before it. */
    method PopulateInputFieldsFromQrData(m: QrMatch, cfg: QrConfig, decode: string -> Option<string>)
      returns (threw: bool)
      modifies this
      ensures log == old(log) + Populate(m, cfg, decode).effects
      ensures threw == Populate(m, cfg, decode).threw
    {
      threw := false;
      if m.id != "" {
        log := log + [WriteField(cfg.userNameField, m.id)];
      }
      if Given(m.firstName) {
        var first := decode(m.firstName.value);
        if first.None? {
          threw := true;
          return;
        }
        log := log + [WriteField(cfg.firstNameField, first.value)];
      }
      if Given(m.lastName) {
        var last := decode(m.lastName.value);
        if last.None? {
          threw := true;
          return;
        }
        log := log + [WriteField(cfg.lastNameField, last.value)];
      }
    }

    /** `handleQrResult`: on a match, fills the form, shows the success image and schedules
        the submit click; otherwise only keeps scanning. */
    method HandleQrResult(qrData: string, cfg: QrConfig, decode: string -> Option<string>)
      returns (threw: bool)
      modifies this
      ensures log == old(log) + Handle(qrData, cfg, decode).effects
      ensures threw == Handle(qrData, cfg, decode).threw
    {
      var found := Match(qrData);
      threw := false;
      if found.Some? {
        threw := PopulateInputFieldsFromQrData(found.value, cfg, decode);
        if threw {
          return;
        }
        log := log + [ShowSuccessImage(cfg.successImageContainerId)];
        log := log + [ScheduleClick(cfg.submitButtonId, cfg.submitButtonDelay)];
      }
    }
  }
}
