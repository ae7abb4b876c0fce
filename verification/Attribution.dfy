// The orchestrator exports attribution, the hook reads it back.
module Attribution {
  import opened Base
  import opened Text
  import opened Phases
  import opened PhaseLabels

  datatype TextArg = NoText | Given(s: string) | NotText

  datatype PhaseArg = NoPhase | OfKind(kind: Kind) | Written(s: string) | NotAPhase

  datatype Mode = ApiMetered | Subscription

  datatype ModeArg = NoMode | OfMode(mode: Mode) | Named(s: string) | NotAMode

  /** The four exported variables. */
  datatype Block = Block(issueKey: string, phase: string, streamId: string, pricingMode: string)

  /** What the hook puts on a record. */
  datatype Fields = Fields(
    workload: Option<string>, queue: Option<string>, parentRequestId: Option<string>, pricingMode: Mode)

  function ModeValue(m: Mode): string {
    match m
    case ApiMetered => "api_metered"
    case Subscription => "subscription"
  }

  function CoerceMode(a: ModeArg): Outcome<Option<Mode>> {
    match a
    case NoMode => Ok(None)
    case OfMode(m) => Ok(Some(m))
    case Named(s) =>
      if s == "api_metered" then Ok(Some(ApiMetered))
      else if s == "subscription" then Ok(Some(Subscription))
      else ValueError
    case NotAMode => ValueError
  }

  // ---- the producer ------------------------------------------------------------------------------

  predicate Blank(u: Unicode, s: string) { forall c | c in s :: u.isBlank(c) }

  function RequiredText(u: Unicode, a: TextArg): Outcome<string> {
    match a
    case NoText => Ok("")
    case Given(s) => if Blank(u, s) then ValueError else Ok(Strip(u, s))
    case NotText => ValueError
  }

  function PhaseText(u: Unicode, a: PhaseArg): Outcome<string> {
    match a
    case NoPhase => Ok("")
    case OfKind(k) => Ok(KindValue(k))
    case Written(s) =>
      if Collapse(u, s) == "" then ValueError
      else if Read(u, s).Impossible? then ValueError
      else
        (match Normalize(u, Some(s))
         case Ok(r) => Ok(if r.Some? then r.value else "")
         case ValueError => ValueError)
    case NotAPhase => ValueError
  }

  function ModeText(m: Option<Mode>): string { if m.Some? then ModeValue(m.value) else "" }

  function AttributionEnv(
    u: Unicode, issueKey: TextArg, phase: PhaseArg, streamId: TextArg, mode: ModeArg): Outcome<Block>
  {
    var m := CoerceMode(mode);
    var p := PhaseText(u, phase);
    var i := RequiredText(u, issueKey);
    var s := RequiredText(u, streamId);
    if m.ValueError? || p.ValueError? || i.ValueError? || s.ValueError? then ValueError
    else Ok(Block(i.value, p.value, s.value, ModeText(m.value)))
  }

  // ---- the consumer ------------------------------------------------------------------------------

  // An environment value, unset and blank alike.
  function EnvValue(u: Unicode, s: string): Option<string> {
    if Strip(u, s) == "" then None else Some(Strip(u, s))
  }

  function DeclaredMode(u: Unicode, s: string): Mode {
    var declared := EnvValue(u, s);
    if declared.None? then Subscription
    else
      match CoerceMode(Named(declared.value))
      case Ok(m) => if m.Some? then m.value else Subscription
      case ValueError => Subscription
  }

  function AttributionFromEnv(u: Unicode, b: Block): Outcome<Fields> {
    match Normalize(u, EnvValue(u, b.phase))
    case ValueError => ValueError
    case Ok(phase) =>
      Ok(Fields(EnvValue(u, b.issueKey), phase, EnvValue(u, b.streamId), DeclaredMode(u, b.pricingMode)))
  }

  // ---- stripping -----------------------------------------------------------------------------------

  // What is stripped, and what starts and ends outside the spaces, stays.
  lemma StripKeeps(u: Unicode, s: string)
    requires s != "" && !u.isSpace(s[0]) && !u.isSpace(s[|s| - 1])
    ensures Strip(u, s) == s
  {
  }

  lemma StripTwice(u: Unicode, s: string)
    ensures Strip(u, Strip(u, s)) == Strip(u, s)
  {
    var r := Strip(u, s);
    if r != "" {
      var tail := RStripParts(u, LStrip(u, s));
      assert LStrip(u, s)[0] == r[0];
      StripKeeps(u, r);
    }
  }

  lemma CollapsedIsStripped(u: Unicode, s: string)
    ensures EnvValue(u, Collapse(u, s)) == if Collapse(u, s) == "" then None else Some(Collapse(u, s))
  {
    StripTwice(u, Squeeze(u, Unscore(s)));
    hide Strip, Squeeze, Unscore;
  }

  lemma PlainIsStripped(u: Unicode, s: string)
    requires Sane(u) && IsPlain(u, s)
    ensures EnvValue(u, s) == Some(s)
  {
  }

  // ---- refusals ------------------------------------------------------------------------------------

  // A text argument the producer refuses.
  predicate Refused(u: Unicode, a: TextArg) { a.NotText? || (a.Given? && Blank(u, a.s)) }

  ghost predicate SaysZero(u: Unicode, t: string) {
    exists k :: SaysNumber(u, t, k, 0) || SaysOrdinal(u, t, k, 0)
  }

  lemma ImpossibleIff(u: Unicode, s: string)
    requires Sane(u)
    ensures Read(u, s).Impossible? <==> SaysZero(u, Lower(u, Collapse(u, s)))
  {
    var t := Lower(u, Collapse(u, s));
    hide Lower, Collapse, Parse, SaysNumber, SaysOrdinal;
    if Read(u, s).Impossible? {
      ParseIff(u, t, Read(u, s).kind, 0);
    }
    if k :| SaysNumber(u, t, k, 0) || SaysOrdinal(u, t, k, 0) {
      ParseIff(u, t, k, 0);
    }
  }

  // A phase argument the producer refuses: a wrong type, separators alone, occurrence 0 of a kind, or a
  // numeral too long to convert.
  ghost predicate RefusedPhase(u: Unicode, a: PhaseArg) {
    || a.NotAPhase?
    || (a.Written? && (AllSeparators(u, a.s) || SaysZero(u, Lower(u, Collapse(u, a.s)))
                       || SaysTooLong(u, Lower(u, Collapse(u, a.s)))))
  }

  lemma PhaseRefusedIff(u: Unicode, a: PhaseArg)
    requires Sane(u)
    ensures PhaseText(u, a) == ValueError <==> RefusedPhase(u, a)
  {
    if a.Written? {
      CollapseEmpties(u, a.s);
      ImpossibleIff(u, a.s);
      NormalizeRaisesIff(u, a.s);
    }
    hide Collapse, Lower, Read, Normalize, SaysZero, SaysTooLong, AllSeparators, Sane, KindValue;
  }

  /** The producer refuses blanks, separators alone, impossible occurrences, unknown modes and wrong types,
      and nothing else. */
  lemma RefusesIff(u: Unicode, issueKey: TextArg, phase: PhaseArg, streamId: TextArg, mode: ModeArg)
    requires Sane(u)
    ensures AttributionEnv(u, issueKey, phase, streamId, mode) == ValueError <==>
            || Refused(u, issueKey) || Refused(u, streamId) || RefusedPhase(u, phase)
            || mode.NotAMode? || (mode.Named? && mode.s != "api_metered" && mode.s != "subscription")
  {
    PhaseRefusedIff(u, phase);
    hide PhaseText, RefusedPhase, Strip, Sane, Blank, ModeValue;
  }

  /** What is exported: each argument in its own variable, stripped, normalized or by name, and empty if left out. */
  lemma ExportsAre(u: Unicode, issueKey: TextArg, phase: PhaseArg, streamId: TextArg, mode: ModeArg)
    requires AttributionEnv(u, issueKey, phase, streamId, mode).Ok?
    ensures var block := AttributionEnv(u, issueKey, phase, streamId, mode).value;
            && block.issueKey == (if issueKey.Given? then Strip(u, issueKey.s) else "")
            && block.streamId == (if streamId.Given? then Strip(u, streamId.s) else "")
            && (phase.NoPhase? ==> block.phase == "")
            && (phase.OfKind? ==> block.phase == KindValue(phase.kind))
            && (phase.Written? ==> Normalize(u, Some(phase.s)) == Ok(Some(block.phase)))
            && (mode == OfMode(ApiMetered) || mode == Named("api_metered") <==> block.pricingMode == "api_metered")
            && (mode == OfMode(Subscription) || mode == Named("subscription") <==> block.pricingMode == "subscription")
            && (mode.NoMode? <==> block.pricingMode == "")
  {
    if phase.Written? {
      NormalizeBy(u, phase.s);
    }
    hide Normalize, Collapse, Strip, Blank, KindValue, Parse, Lower, CoerceMode, ModeText, Read;
    ModesAreNamed(mode);
  }

  lemma ModesAreNamed(mode: ModeArg)
    ensures CoerceMode(mode).Ok? ==>
              var text := ModeText(CoerceMode(mode).value);
              && (mode == OfMode(ApiMetered) || mode == Named("api_metered") <==> text == "api_metered")
              && (mode == OfMode(Subscription) || mode == Named("subscription") <==> text == "subscription")
              && (mode.NoMode? <==> text == "")
  {
  }

  // ---- reading back --------------------------------------------------------------------------------

  // What a text argument comes back as.
  function Back(u: Unicode, a: TextArg): Option<string> {
    if a.Given? then Some(Strip(u, a.s)) else None
  }

  lemma TextReadsBack(u: Unicode, a: TextArg)
    requires Sane(u) && RequiredText(u, a).Ok?
    ensures EnvValue(u, RequiredText(u, a).value) == Back(u, a)
    ensures a.Given? ==> !Blank(u, Strip(u, a.s))
  {
    if a.Given? {
      StripTwice(u, a.s);
      StrippedIsNotBlank(u, a.s);
    }
    hide Blank;
  }

  // Stripping takes no character that is not blank, so what is not blank is not blank stripped.
  lemma StrippedIsNotBlank(u: Unicode, s: string)
    requires Sane(u) && !Blank(u, s)
    ensures !Blank(u, Strip(u, s)) && Strip(u, s) != ""
  {
    assert forall c: char | u.isSpace(c) :: u.isBlank(c);
    hide Sane, Strip;
    var gap, tail := StripParts(u, s);
    var c :| c in s && !u.isBlank(c);
    assert c in gap || c in Strip(u, s) || c in tail;
  }

  lemma PhaseReadsBack(u: Unicode, a: PhaseArg)
    requires Sane(u) && PhaseText(u, a).Ok?
    ensures Normalize(u, EnvValue(u, PhaseText(u, a).value)) ==
            match a
            case OfKind(k) => Ok(Some(KindValue(k)))
            case Written(s) => Normalize(u, Some(s))
            case _ => Ok(None)
  {
    match a {
      case OfKind(k) =>
        KindShape(k);
        PlainIsStripped(u, KindValue(k));
        LabelsReadBack(u, k, Uncounted, KindValue(k));
      case Written(s) => WrittenReadsBack(u, s);
      case _ =>
    }
    hide Normalize, KindValue, KindOf, Sane;
  }

  lemma WrittenReadsBack(u: Unicode, s: string)
    requires Sane(u) && PhaseText(u, Written(s)).Ok?
    ensures Normalize(u, EnvValue(u, PhaseText(u, Written(s)).value)) == Normalize(u, Some(s))
  {
    NormalizeBy(u, s);
    hide Normalize, Collapse, Lower, Parse, Sane, KindValue;
    var r := Normalize(u, Some(s)).value.value;
    NormalizeTwice(u, s, r);
    match Read(u, s) {
      case Bare(k) =>
        KindIsPlain(u, k);
        PlainIsStripped(u, r);
      case Numbered(k, n) =>
        LabelIsPlain(u, k, n);
        PlainIsStripped(u, r);
      case _ => CollapsedIsStripped(u, s);
    }
    hide EnvValue;
  }

  lemma KindIsPlain(u: Unicode, k: Kind)
    ensures IsPlain(u, KindValue(k))
  {
  }

  lemma LabelIsPlain(u: Unicode, k: Kind, n: nat)
    requires Sane(u)
    ensures IsPlain(u, LabelText(k, n))
  {
    AsciiDigits(u, Numerals.Decimal(n));
    NumberedIsPlain(u, k, Numerals.Decimal(n));
  }

  lemma ModeReadsBack(u: Unicode, m: Mode)
    requires Sane(u)
    ensures DeclaredMode(u, ModeValue(m)) == m
  {
  }

  lemma ModeComesBack(u: Unicode, mode: ModeArg)
    requires Sane(u) && CoerceMode(mode).Ok?
    ensures DeclaredMode(u, ModeText(CoerceMode(mode).value)) ==
            if mode == OfMode(ApiMetered) || mode == Named("api_metered") then ApiMetered else Subscription
  {
    match CoerceMode(mode).value {
      case Some(m) => ModeReadsBack(u, m);
      case None =>
    }
    hide DeclaredMode, ModeValue, Sane;
    if CoerceMode(mode).value.None? { NoModeReadsBack(u); }
  }

  lemma NoModeReadsBack(u: Unicode)
    ensures DeclaredMode(u, "") == Subscription
  {
  }

  /** What the producer accepts, the hook reads back: the phase in normal form, the issue key and the stream
      stripped and still not blank, and nothing for what was left out alone. One thing comes back differently
      from how it was given: a pricing mode left out comes back as a subscription. */
  lemma ReadsBack(u: Unicode, issueKey: TextArg, phase: PhaseArg, streamId: TextArg, mode: ModeArg)
    requires Sane(u) && AttributionEnv(u, issueKey, phase, streamId, mode).Ok?
    ensures var read := AttributionFromEnv(u, AttributionEnv(u, issueKey, phase, streamId, mode).value);
            && read.Ok?
            && read.value.workload == Back(u, issueKey) && read.value.parentRequestId == Back(u, streamId)
            && (issueKey.Given? ==> !Blank(u, Strip(u, issueKey.s)))
            && (streamId.Given? ==> !Blank(u, Strip(u, streamId.s)))
            && Ok(read.value.queue) ==
               (match phase
                case OfKind(k) => Ok(Some(KindValue(k)))
                case Written(s) => Normalize(u, Some(s))
                case _ => Ok(None))
            && read.value.pricingMode ==
               (if mode == OfMode(ApiMetered) || mode == Named("api_metered") then ApiMetered else Subscription)
  {
    TextReadsBack(u, issueKey);
    TextReadsBack(u, streamId);
    PhaseReadsBack(u, phase);
    ModeComesBack(u, mode);
    hide Normalize, EnvValue, PhaseText, RequiredText, DeclaredMode, Back, KindValue, Sane, CoerceMode, ModeText, Blank,
         Strip;
  }
}
