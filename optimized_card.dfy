/**
 * What the memory-card component derives from its props: the size and
 * spring tables, the accessibility attributes, the disabled styling and the
 * click guard.
 */
module OptimizedCard {
  import opened Wrappers
  import opened Decimal

  /** The part of a card the component reads. */
  datatype Card = Card(id: int, image: string)

  /** A size preset, in pixels. */
  datatype SizeConfig = SizeConfig(width: int, height: int, padding: int)

  const Small := SizeConfig(90, 90, 3)
  const Medium := SizeConfig(120, 120, 5)
  const Large := SizeConfig(190, 190, 10)
  const XLarge := SizeConfig(220, 220, 10)

  /** `sizeConfig`: the preset named by `size`, medium for any other name. */
  function SizeFor(size: string): (c: SizeConfig)
    ensures c.height == c.width
    ensures c in {Small, Medium, Large, XLarge}
    ensures c == Medium <==> size !in ["small", "large", "xlarge"]
  {
    match size
    case "small" => Small
    case "medium" => Medium
    case "large" => Large
    case "xlarge" => XLarge
    case _ => Medium
  }

  /** The presets grow strictly in size, and padding never shrinks. */
  lemma SizesOrdered()
    ensures SizeFor("small").width < SizeFor("medium").width < SizeFor("large").width < SizeFor("xlarge").width
    ensures SizeFor("small").padding <= SizeFor("medium").padding <= SizeFor("large").padding <= SizeFor("xlarge").padding
  {
  }

  /** A spring configuration; the `fast` preset is a configuration of the animation library. */
  datatype SpringConfig =
    | Spring(tension: int, friction: int, clamp: bool)
    | LibraryStiff

  /** The card-flip spring shared with the other components. */
  const CardFlip := Spring(300, 30, true)

  /** `springConfig`: slow, normal (the card-flip spring) or fast; any other speed is normal. */
  function SpringFor(speed: string): (c: SpringConfig)
    ensures c == CardFlip <==> speed !in ["slow", "fast"]
    ensures c == LibraryStiff <==> speed == "fast"
    ensures c.Spring? && c != CardFlip <==> speed == "slow"
    ensures speed == "slow" ==> c == Spring(200, 35, false)
  {
    match speed
    case "slow" => Spring(200, 35, false)
    case "normal" => CardFlip
    case "fast" => LibraryStiff
    case _ => CardFlip
  }

  const LabelPrefix := "Memory card "
  const FlippedSuffix := " (flipped)"
  const MatchedSuffix := " (matched)"

  /** `aria-label`: "Memory card <id>", then " (flipped)" when face up, then " (matched)" when matched. */
  function AriaLabel(id: int, flipped: bool, matched: bool): string {
    LabelPrefix + IntToString(id)
      + (if flipped || matched then FlippedSuffix else "")
      + (if matched then MatchedSuffix else "")
  }

  /** The label as a screen reader presents it: the id, whether the card shows its face, and whether it is matched. */
  datatype LabelReading = LabelReading(id: int, faceUp: bool, matched: bool)

  /** Whether `s` ends with `suffix`. */
  predicate EndsWith(s: string, suffix: string) {
    |s| >= |suffix| && s[|s| - |suffix|..] == suffix
  }

  /** Reads a label back; None for text that is not a card label. */
  function ReadLabel(text: string): (r: Option<LabelReading>)
  {
    var matched := EndsWith(text, MatchedSuffix);
    var rest := if matched then text[..|text| - |MatchedSuffix|] else text;
    var faceUp := EndsWith(rest, FlippedSuffix);
    var idText := if faceUp then rest[..|rest| - |FlippedSuffix|] else rest;
    if |idText| > |LabelPrefix| && idText[..|LabelPrefix|] == LabelPrefix then
      var digits := idText[|LabelPrefix|..];
      if AllDigits(digits) || (digits[0] == '-' && AllDigits(digits[1..])) then
        Some(LabelReading(ParseInt(digits), faceUp, matched))
      else None
    else None
  }

  /**
   * The label says exactly what the card shows: it reads back as the card's
   * id, face up when flipped or matched, and matched when matched.
   */
  lemma AriaLabelReadsBack(id: int, flipped: bool, matched: bool)
    ensures ReadLabel(AriaLabel(id, flipped, matched)) == Some(LabelReading(id, flipped || matched, matched))
  {
    var faceUp := flipped || matched;
    var digits := IntToString(id);
    var idText := LabelPrefix + digits;
    var withFlip := idText + (if faceUp then FlippedSuffix else "");
    var text := AriaLabel(id, flipped, matched);
    assert EndsWith(text, MatchedSuffix) == matched
      && (if matched then text[..|text| - |MatchedSuffix|] else text) == withFlip by {
      assert text == withFlip + (if matched then MatchedSuffix else "");
      NotEndsWithSuffix(withFlip, digits, faceUp, MatchedSuffix);
      StripSuffix(text, withFlip, MatchedSuffix, matched);
    }
    assert EndsWith(withFlip, FlippedSuffix) == faceUp
      && (if faceUp then withFlip[..|withFlip| - |FlippedSuffix|] else withFlip) == idText by {
      assert !EndsWith(idText, FlippedSuffix) by {
        assert idText[|idText| - 1] == digits[|digits| - 1];
      }
      StripSuffix(withFlip, idText, FlippedSuffix, faceUp);
    }
    assert |idText| > |LabelPrefix| && idText[..|LabelPrefix|] == LabelPrefix && idText[|LabelPrefix|..] == digits;
    assert (AllDigits(digits) || (digits[0] == '-' && AllDigits(digits[1..]))) && ParseInt(digits) == id by {
      ParseIntToString(id);
    }
    ReadLabelSteps(text, withFlip, idText, faceUp, matched);
  }

  /** `ReadLabel` peels " (matched)", then " (flipped)", then the prefix, and parses what remains. */
  lemma ReadLabelSteps(text: string, withFlip: string, idText: string, faceUp: bool, matched: bool)
    requires EndsWith(text, MatchedSuffix) == matched
    requires (if matched then text[..|text| - |MatchedSuffix|] else text) == withFlip
    requires EndsWith(withFlip, FlippedSuffix) == faceUp
    requires (if faceUp then withFlip[..|withFlip| - |FlippedSuffix|] else withFlip) == idText
    requires |idText| > |LabelPrefix| && idText[..|LabelPrefix|] == LabelPrefix
    requires var digits := idText[|LabelPrefix|..];
      AllDigits(digits) || (digits[0] == '-' && AllDigits(digits[1..]))
    ensures ReadLabel(text) == Some(LabelReading(ParseInt(idText[|LabelPrefix|..]), faceUp, matched))
  {
  }

  /** A suffix appended to text that does not already end with it is recognised and removed again. */
  lemma StripSuffix(text: string, base: string, suffix: string, present: bool)
    requires !EndsWith(base, suffix)
    requires text == base + (if present then suffix else "")
    ensures EndsWith(text, suffix) == present
    ensures (if present then text[..|text| - |suffix|] else text) == base
  {
    if present {
      assert text[|text| - |suffix|..] == suffix;
      assert text[..|text| - |suffix|] == base;
    }
  }

  /** A label without " (matched)" ends with a digit or with ")" of " (flipped)", never with " (matched)". */
  lemma NotEndsWithSuffix(withFlip: string, digits: string, faceUp: bool, suffix: string)
    requires |digits| >= 1 && IsDigit(digits[|digits| - 1])
    requires withFlip == LabelPrefix + digits + (if faceUp then FlippedSuffix else "")
    requires suffix == MatchedSuffix
    ensures !EndsWith(withFlip, suffix)
  {
    if faceUp {
      assert withFlip[|withFlip| - |suffix|..] == FlippedSuffix;
      assert FlippedSuffix[2] != MatchedSuffix[2];
    } else {
      assert withFlip[|withFlip| - 1] == digits[|digits| - 1];
    }
  }

  /** The accessibility state of the card: face up when flipped or matched. */
  datatype CardState = CardState(isFlipped: bool, isMatched: bool, isDisabled: bool)

  function StateOf(flipped: bool, matched: bool, disabled: bool): (s: CardState)
    ensures s.isFlipped <==> flipped || matched
    ensures s.isMatched == matched && s.isDisabled == disabled
  {
    CardState(flipped || matched, matched, disabled)
  }

  /** The attributes the component renders; opacity is in tenths. */
  datatype Attributes = Attributes(
    ariaLabel: string,
    ariaPressed: bool,
    tabIndex: int,
    opacityTenths: int,
    pointerEvents: string,
    size: SizeConfig)

  /** The rendered attributes of a card. */
  function AttributesOf(card: Card, flipped: bool, matched: bool, disabled: bool, size: string): (a: Attributes)
    ensures a.ariaPressed <==> flipped || matched
    ensures disabled <==> a.tabIndex < 0
    ensures disabled <==> a.pointerEvents == "none"
    ensures disabled <==> a.opacityTenths < 10
    ensures disabled ==> a.opacityTenths == 6 && a.tabIndex == -1
    ensures !disabled ==> a.opacityTenths == 10 && a.tabIndex == 0 && a.pointerEvents == "auto"
    ensures ReadLabel(a.ariaLabel) == Some(LabelReading(card.id, a.ariaPressed, matched))
    ensures a.size == SizeFor(size)
  {
    var state := StateOf(flipped, matched, disabled);
    AriaLabelReadsBack(card.id, flipped, matched);
    Attributes(
      AriaLabel(card.id, flipped, matched),
      state.isFlipped,
      if disabled then -1 else 0,
      if disabled then 6 else 10,
      if disabled then "none" else "auto",
      SizeFor(size))
  }

  /**
   * The click guard: `handleClick(card)` runs, with this card, only when the
   * card is enabled and a handler was given. Enter and Space act as a click.
   */
  function ClickOutcome(card: Card, disabled: bool, hasHandler: bool): (handled: Option<Card>)
    ensures handled.Some? <==> !disabled && hasHandler
    ensures handled.Some? ==> handled.value == card
  {
    if !disabled && hasHandler then Some(card) else None
  }

  predicate ActivatesCard(key: string) {
    key == "Enter" || key == " "
  }

  /** The outcome of a key press: a click for Enter or Space, nothing for other keys. */
  function KeyOutcome(card: Card, key: string, disabled: bool, hasHandler: bool): (handled: Option<Card>)
    ensures handled.Some? <==> ActivatesCard(key) && !disabled && hasHandler
    ensures handled.Some? ==> handled.value == card
  {
    if ActivatesCard(key) then ClickOutcome(card, disabled, hasHandler) else None
  }

  /**
   * The memoised card state is what the rendered attributes show: aria-pressed
   * and the label's face-up part are its `isFlipped`, the label's matched part
   * is its `isMatched`, and the card leaves the tab order exactly when it is
   * `isDisabled`.
   */
  lemma StateDrivesAttributes(card: Card, flipped: bool, matched: bool, disabled: bool, size: string)
    ensures var s := StateOf(flipped, matched, disabled);
      var a := AttributesOf(card, flipped, matched, disabled, size);
      && a.ariaPressed == s.isFlipped
      && ReadLabel(a.ariaLabel) == Some(LabelReading(card.id, s.isFlipped, s.isMatched))
      && (s.isDisabled <==> a.tabIndex == -1)
  {
  }

  /**
   * A click reaches the handler exactly when the card is rendered as
   * interactive (in the tab order, taking pointer events) and a handler was
   * given, and it then passes this very card.
   */
  lemma ClickReachesHandler(card: Card, flipped: bool, matched: bool, disabled: bool, size: string, hasHandler: bool)
    ensures var a := AttributesOf(card, flipped, matched, disabled, size);
      && (ClickOutcome(card, disabled, hasHandler).Some? <==> hasHandler && a.tabIndex == 0 && a.pointerEvents == "auto")
      && (ClickOutcome(card, disabled, hasHandler).Some? ==> ClickOutcome(card, disabled, hasHandler).value == card)
  {
  }

  /** Enter and Space behave exactly as a click; every other key does nothing. */
  lemma KeyActsAsClick(card: Card, key: string, disabled: bool, hasHandler: bool)
    ensures ActivatesCard(key) ==> KeyOutcome(card, key, disabled, hasHandler) == ClickOutcome(card, disabled, hasHandler)
    ensures !ActivatesCard(key) ==> KeyOutcome(card, key, disabled, hasHandler).None?
  {
  }

  /**
   * A card rendered as disabled is inert: it is out of the tab order, ignores
   * the pointer, and neither a click nor a key press reaches the handler.
   */
  lemma DisabledCardInert(card: Card, flipped: bool, matched: bool, size: string, key: string, hasHandler: bool)
    ensures var a := AttributesOf(card, flipped, matched, true, size);
      && a.tabIndex == -1 && a.pointerEvents == "none"
      && ClickOutcome(card, true, hasHandler).None?
      && KeyOutcome(card, key, true, hasHandler).None?
  {
  }
}
