/** Card property flags, the preset flag sets, and the filter that keeps a card when any enabled
  * property holds for it. */
module CardFilter {
  import opened Model
  import Seqs

  /** The non-empty members of the flag enumeration; NONE is the empty set. */
  datatype Prop = Open | WithChecklist | WithDescription | WithAttachment

  type Flags = set<Prop>

  /** The enumeration's members in declaration order, NONE first. */
  const Members: seq<Flags> := [{}, {Open}, {WithChecklist}, {WithDescription}, {WithAttachment}]

  function UnionOf(ms: seq<Flags>): (r: Flags)
    ensures forall p :: p in r <==> exists i :: 0 <= i < |ms| && p in ms[i]
  {
    if |ms| == 0 then {} else ms[0] + UnionOf(ms[1..])
  }

  /** The union of every member: every property flag is set. */
  function All(): (r: Flags)
    ensures r == {Open, WithChecklist, WithDescription, WithAttachment}
  {
    UnionOfMembers();
    UnionOf(Members)
  }

  lemma AllHasEvery(p: Prop)
    ensures p in All()
  {
    match p
    case Open =>
    case WithChecklist =>
    case WithDescription =>
    case WithAttachment =>
  }

  lemma UnionOfMembers()
    ensures UnionOf(Members) == {Open, WithChecklist, WithDescription, WithAttachment}
  {
    var u := UnionOf(Members);
    assert Open in Members[1] && WithChecklist in Members[2];
    assert WithDescription in Members[3] && WithAttachment in Members[4];
    assert forall p :: p in u <==> p in {Open, WithChecklist, WithDescription, WithAttachment};
  }

  /** The named presets. */
  datatype Preset = AllCards | DescAndChecklist | DescAndAttachment | ChecklistAndAttachment | OnlyDescription {
    function Value(): Flags {
      match this
      case AllCards => All()
      case DescAndChecklist => {WithDescription, WithChecklist}
      case DescAndAttachment => {WithDescription, WithAttachment}
      case ChecklistAndAttachment => {WithChecklist, WithAttachment}
      case OnlyDescription => {WithDescription}
    }
  }

  /** No two presets share a value, so none is an alias of another. */
  lemma PresetsDistinct(p: Preset, q: Preset)
    requires p != q
    ensures p.Value() != q.Value()
  {
    assert Open in AllCards.Value();
    assert WithAttachment in AllCards.Value() && WithChecklist in AllCards.Value();
  }

  /** The property tests the filter can enable; OPEN has none. */
  datatype Check = AttachmentCheck | DescriptionCheck | ChecklistCheck

  predicate Passes(k: Check, c: Card) {
    match k
    case AttachmentCheck => HasAttachments(c)
    case DescriptionCheck => HasDescription(c)
    case ChecklistCheck => HasChecklist(c)
  }

  /** The checks the flags enable, in the order the filter collects them. */
  function RequiredChecks(flags: Flags): (r: seq<Check>)
    ensures AttachmentCheck in r <==> WithAttachment in flags
    ensures DescriptionCheck in r <==> WithDescription in flags
    ensures ChecklistCheck in r <==> WithChecklist in flags
  {
    (if WithAttachment in flags then [AttachmentCheck] else [])
    + (if WithDescription in flags then [DescriptionCheck] else [])
    + (if WithChecklist in flags then [ChecklistCheck] else [])
  }

  /** `any(check(card) for check in checks)`. */
  predicate AnyPasses(checks: seq<Check>, c: Card) {
    exists i :: 0 <= i < |checks| && Passes(checks[i], c)
  }

  predicate Keep(flags: Flags, c: Card) {
    AnyPasses(RequiredChecks(flags), c)
  }

  /** The kept condition is an inclusive OR over the enabled properties; OPEN plays no part. */
  lemma KeepIff(flags: Flags, c: Card)
    ensures Keep(flags, c) <==>
      (WithAttachment in flags && HasAttachments(c))
      || (WithDescription in flags && HasDescription(c))
      || (WithChecklist in flags && HasChecklist(c))
  {
    var r := RequiredChecks(flags);
    if WithAttachment in flags && HasAttachments(c) {
      var i :| 0 <= i < |r| && r[i] == AttachmentCheck;
    }
    if WithDescription in flags && HasDescription(c) {
      var i :| 0 <= i < |r| && r[i] == DescriptionCheck;
    }
    if WithChecklist in flags && HasChecklist(c) {
      var i :| 0 <= i < |r| && r[i] == ChecklistCheck;
    }
  }

  /** All flags return the cards as they are; otherwise the cards passing some enabled check, in order. */
  function FilterCards(cards: seq<Card>, flags: Flags): (r: seq<Card>)
    ensures flags == All() ==> r == cards
    ensures Seqs.IsSubsequence(r, cards)
    ensures forall c :: c in r <==> c in cards && (flags == All() || Keep(flags, c))
  {
    if flags == All() then
      Seqs.SubsequenceRefl(cards);
      cards
    else
      Seqs.FilterIsSubsequence(c => Keep(flags, c), cards);
      Seqs.Filter(c => Keep(flags, c), cards)
  }

  /** With no property check enabled, as for OPEN alone, every card is dropped. */
  lemma NoChecksDropsAll(cards: seq<Card>, flags: Flags)
    requires WithAttachment !in flags && WithDescription !in flags && WithChecklist !in flags
    ensures FilterCards(cards, flags) == []
  {
    assert WithAttachment in All();
    forall c | c in cards ensures !Keep(flags, c) {
      KeepIff(flags, c);
    }
    Seqs.FilterDropsAll(c => Keep(flags, c), cards);
  }

  /** Enabling more flags never drops a card that was kept, nor changes the order. */
  lemma FilterMonotone(cards: seq<Card>, f: Flags, g: Flags)
    requires f <= g
    ensures Seqs.IsSubsequence(FilterCards(cards, f), FilterCards(cards, g))
  {
    if g == All() {
      if f == All() {
        Seqs.SubsequenceRefl(cards);
      }
    } else {
      forall p | p in g ensures p in All() {
        AllHasEvery(p);
      }
      assert !(Open in g && WithChecklist in g && WithDescription in g && WithAttachment in g);
      assert f != All();
      forall c | c in cards && Keep(f, c) ensures Keep(g, c) {
        KeepIff(f, c);
        KeepIff(g, c);
      }
      Seqs.FilterMonotone(c => Keep(f, c), c => Keep(g, c), cards);
    }
  }

  /** A card with only a checklist is kept by checklist-or-attachment: the checks are OR-ed, not AND-ed. */
  lemma InclusiveOrExample(c: Card)
    requires HasChecklist(c) && !HasAttachments(c) && !HasDescription(c)
    ensures FilterCards([c], ChecklistAndAttachment.Value()) == [c]
  {
    var f := ChecklistAndAttachment.Value();
    assert Open in All() && Open !in f;
    KeepIff(f, c);
    var p := (x: Card) => Keep(f, x);
    assert FilterCards([c], f) == Seqs.Filter(p, [c]);
    Seqs.FilterKeepsAll(p, [c]);
  }
}
