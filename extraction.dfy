/**
  Entity resolution of k1_processor.py (`extract_entities`): the issuing entity (the partnership)
  and the receiving entity (the partner) read off a K-1 page three lines below their section
  anchors, with the fixups for the PDF text layer's known artifacts.

  A document is the sequence of its pages and a page the sequence of its lines, as
  `page.extract_text().splitlines()` gives them. The form marker, having no line break in it,
  occurs in a page's text exactly when it occurs in one of its lines.
*/
module Extraction {
  import opened Wrappers
  import opened Text
  import opened Discovery

  type Page = seq<string>
  type Document = seq<Page>

  const FORM_MARKER := "Schedule K-1 (Form 1065)"
  const PARTNERSHIP_ANCHOR := "Part I Information About the Partnership"
  const PARTNER_ANCHOR := "Part II Information About the Partner"
  /** Each entity sits this many lines below its anchor. */
  const ENTITY_OFFSET := 3
  /** A partnership name too long for its line leaves only this tail on the expected line. */
  const SPILL_TAIL := "investors llc"

  datatype Entities = Entities(issuing: Option<string>, receiving: Option<string>)

  // ---------------------------------------------------------------- the (cid:ddd)X artifact

  /** The regex ` \(cid:\d{3}\)X` matches the eleven characters of `s` starting at `i`. */
  predicate CidAt(s: string, i: int) {
    0 <= i && i + 11 <= |s|
    && s[i] == ' ' && s[i + 1] == '(' && s[i + 2] == 'c' && s[i + 3] == 'i' && s[i + 4] == 'd'
    && s[i + 5] == ':' && IsDigit(s[i + 6]) && IsDigit(s[i + 7]) && IsDigit(s[i + 8])
    && s[i + 9] == ')' && s[i + 10] == 'X'
  }

  predicate HasCid(s: string) {
    exists i :: 0 <= i < |s| && CidAt(s, i)
  }

  /** `re.sub(r" \(cid:\d{3}\)X", "", s)`: one left-to-right pass deleting non-overlapping matches. */
  function RemoveCid(s: string): string
    decreases |s|
  {
    if |s| == 0 then []
    else if CidAt(s, 0) then RemoveCid(s[11..])
    else [s[0]] + RemoveCid(s[1..])
  }

  lemma CidShift(s: string, i: int)
    requires |s| > 0 && i >= 0
    ensures CidAt(s[1..], i) <==> CidAt(s, i + 1)
  {
  }

  lemma {:induction false} RemoveCidShrinks(s: string)
    ensures |RemoveCid(s)| <= |s|
    ensures HasCid(s) ==> |RemoveCid(s)| < |s|
    decreases |s|
  {
    if |s| > 0 {
      if CidAt(s, 0) {
        RemoveCidShrinks(s[11..]);
      } else {
        RemoveCidShrinks(s[1..]);
        if HasCid(s) {
          var i :| 0 <= i < |s| && CidAt(s, i);
          CidShift(s, i - 1);
        }
      }
    }
  }

  lemma {:induction false} RemoveCidNoCid(s: string)
    requires !HasCid(s)
    ensures RemoveCid(s) == s
    decreases |s|
  {
    if |s| > 0 {
      assert !CidAt(s, 0);
      forall j | 0 <= j < |s[1..]| ensures !CidAt(s[1..], j) {
        CidShift(s, j);
      }
      RemoveCidNoCid(s[1..]);
      assert s == [s[0]] + s[1..];
    }
  }

  /** The removal changes a string exactly when the string holds an artifact. */
  lemma RemoveCidUnchangedIff(s: string)
    ensures RemoveCid(s) == s <==> !HasCid(s)
  {
    RemoveCidShrinks(s);
    if !HasCid(s) {
      RemoveCidNoCid(s);
    }
  }

  /** An artifact never spans a space that is not its first character, so the removal
      distributes over a cut just before a space. */
  lemma {:induction false} RemoveCidSplitAtSpace(a: string, b: string)
    requires b == [] || b[0] == ' '
    ensures RemoveCid(a + b) == RemoveCid(a) + RemoveCid(b)
    decreases |a|
  {
    if |a| == 0 {
      assert a + b == b;
    } else {
      assert CidAt(a + b, 0) == CidAt(a, 0);
      if CidAt(a, 0) {
        assert (a + b)[11..] == a[11..] + b;
        RemoveCidSplitAtSpace(a[11..], b);
      } else {
        assert (a + b)[0] == a[0] && (a + b)[1..] == a[1..] + b;
        RemoveCidSplitAtSpace(a[1..], b);
      }
    }
  }

  /** A string shorter than an artifact has none to remove. */
  lemma ShortRemoveCid(s: string)
    requires |s| < 11
    ensures !HasCid(s) && RemoveCid(s) == s
  {
    RemoveCidNoCid(s);
  }

  /** An artifact at the front is dropped and the removal goes on after it. */
  lemma RemoveCidFront(s: string)
    requires CidAt(s, 0)
    ensures RemoveCid(s) == RemoveCid(s[11..])
  {
  }

  /** A name written before an artifact that is followed by a short remainder: the artifact
      goes and the rest stays as it was. */
  lemma RemoveCidBetween(head: string, tail: string)
    requires |head| < 11 && CidAt(tail, 0) && |tail| < 22
    ensures RemoveCid(head + tail) == head + tail[11..]
  {
    RemoveCidSplitAtSpace(head, tail);
    ShortRemoveCid(head);
    RemoveCidFront(tail);
    ShortRemoveCid(tail[11..]);
  }

  /** The pass is single: deleting an artifact can join two halves of another one, which stays.
      Here " (ci (cid:123)Xd:456)X" becomes " (cid:456)X", itself an artifact. */
  lemma RemoveCidSinglePass(head: string, tail: string, rest: string)
    requires head == " (ci" && tail == " (cid:123)Xd:456)X" && rest == "d:456)X"
    ensures RemoveCid(head + tail) == head + rest
    ensures CidAt(head + rest, 0) && HasCid(head + rest)
  {
    assert CidAt(tail, 0);
    assert tail[11..] == rest;
    RemoveCidBetween(head, tail);
    assert CidAt(head + rest, 0);
  }

  // ---------------------------------------------------------------- one entity

  /** The issuing entity found at the anchor in line `a`. */
  function IssuingAt(lines: Page, a: nat): string
    requires a + ENTITY_OFFSET < |lines|
  {
    var name := Strip(lines[a + 3]);
    var joined := if Lower(name) == SPILL_TAIL then Strip(lines[a + 2]) + " " + name else name;
    RemoveCid(joined)
  }

  /** A street word on the expected partner line (`\bst\b` or `\bstreet\b`, ignoring case). */
  predicate MentionsStreet(line: string) {
    HasWholeWord(Lower(line), "st") || HasWholeWord(Lower(line), "street")
  }

  /** The receiving entity found at the anchor in line `a`. */
  function ReceivingAt(lines: Page, a: nat): string
    requires a + ENTITY_OFFSET < |lines|
  {
    var name := Strip(lines[a + 3]);
    if MentionsStreet(name) then Strip(lines[a + 2]) else name
  }

  /** An ordinary partnership line is taken as it stands, stripped. */
  lemma IssuingPlain(lines: Page, a: nat)
    requires a + ENTITY_OFFSET < |lines|
    requires Lower(Strip(lines[a + 3])) != SPILL_TAIL && !HasCid(Strip(lines[a + 3]))
    ensures IssuingAt(lines, a) == Strip(lines[a + 3])
  {
    RemoveCidNoCid(Strip(lines[a + 3]));
  }

  lemma SpillTailHasNoCid(name: string)
    requires Lower(name) == SPILL_TAIL
    ensures !HasCid(name) && !CidAt(" " + name, 0)
  {
    assert forall j :: 0 <= j < |SPILL_TAIL| ==> SPILL_TAIL[j] != '(';
    forall j | 0 <= j < |name| ensures name[j] != '(' {
      assert LowerChar(name[j]) == Lower(name)[j];
    }
    assert (" " + name)[1] == name[0];
  }

  /** Artifacts are removed from the line above only: the tail brings none. */
  lemma RemoveCidSpill(above: string, name: string)
    requires Lower(name) == SPILL_TAIL
    ensures RemoveCid(above + " " + name) == RemoveCid(above) + " " + name
  {
    assert above + " " + name == above + (" " + name);
    RemoveCidSplitAtSpace(above, " " + name);
    SpillTailHasNoCid(name);
    assert (" " + name)[1..] == name;
    RemoveCidNoCid(name);
  }

  /** A spilled name is the line above with the artifacts removed, a single space, and the
      "investors llc" tail as it was written. */
  lemma IssuingSpill(lines: Page, a: nat)
    requires a + ENTITY_OFFSET < |lines|
    requires Lower(Strip(lines[a + 3])) == SPILL_TAIL
    ensures IssuingAt(lines, a) == RemoveCid(Strip(lines[a + 2])) + " " + Strip(lines[a + 3])
  {
    RemoveCidSpill(Strip(lines[a + 2]), Strip(lines[a + 3]));
  }

  /** The artifact is removed from a name on a single line: "SMITH (cid:039)X FUND" becomes "SMITH FUND". */
  lemma IssuingCidExample(head: string, tail: string, rest: string)
    requires head == "SMITH" && tail == " (cid:039)X FUND" && rest == " FUND"
    ensures RemoveCid(head + tail) == head + rest
  {
    assert CidAt(tail, 0);
    assert tail[11..] == rest;
    RemoveCidBetween(head, tail);
  }

  /** A line with no letter "s" in either case. */
  predicate WithoutLetterS(line: string) {
    forall k :: 0 <= k < |line| ==> line[k] != 's' && line[k] != 'S'
  }

  /** The partner is always one of the two candidate lines; it moves up a line exactly when the
      expected line has a whole word "st" or "street" after lower-casing, so a line without any
      letter "s" is always taken as it stands. */
  lemma ReceivingChoice(lines: Page, a: nat)
    requires a + ENTITY_OFFSET < |lines|
    ensures ReceivingAt(lines, a) == Strip(lines[a + 3]) || ReceivingAt(lines, a) == Strip(lines[a + 2])
    ensures ReceivingAt(lines, a) != Strip(lines[a + 3]) ==>
              HasWholeWord(Lower(Strip(lines[a + 3])), "st") || HasWholeWord(Lower(Strip(lines[a + 3])), "street")
    ensures HasWholeWord(Lower(Strip(lines[a + 3])), "st") || HasWholeWord(Lower(Strip(lines[a + 3])), "street") ==>
              ReceivingAt(lines, a) == Strip(lines[a + 2])
    ensures WithoutLetterS(Strip(lines[a + 3])) ==> ReceivingAt(lines, a) == Strip(lines[a + 3])
  {
    var name := Strip(lines[a + 3]);
    if WithoutLetterS(name) && MentionsStreet(name) {
      if HasWholeWord(Lower(name), "st") {
        StartsWithS(name, "st");
      } else {
        StartsWithS(name, "street");
      }
    }
  }

  /** A word beginning with "s" found in the lower-cased line means the line has an "s" or "S". */
  lemma StartsWithS(line: string, w: string)
    requires 0 < |w| && w[0] == 's' && HasWholeWord(Lower(line), w)
    ensures !WithoutLetterS(line)
  {
    WholeWordIsContained(Lower(line), w);
    var i :| 0 <= i <= |Lower(line)| - |w| && OccursAt(Lower(line), w, i);
    assert Lower(line)[i] == w[0];
    assert line[i] == 's' || line[i] == 'S';
  }

  /** "123 Main St" is an address line: the partner is the line above it. */
  lemma StreetExample(lines: Page, a: nat)
    requires a + ENTITY_OFFSET < |lines| && Strip(lines[a + 3]) == "123 Main St"
    ensures ReceivingAt(lines, a) == Strip(lines[a + 2])
  {
    var low := Lower("123 Main St");
    assert low == "123 main st";
    assert WordAt(low, "st", 9);
  }

  /** "Stone Creek LLC" holds "st" only inside a word, so it is taken as the partner. */
  lemma NoStreetExample(lines: Page, a: nat)
    requires a + ENTITY_OFFSET < |lines| && Strip(lines[a + 3]) == "Stone Creek LLC"
    ensures ReceivingAt(lines, a) == "Stone Creek LLC"
  {
    NoStreetLine();
  }

  lemma NoStreetLine()
    ensures !MentionsStreet("Stone Creek LLC")
  {
    var low := Lower("Stone Creek LLC");
    assert low == "stone creek llc";
    assert IsWordChar(low[2]) && low[2] != "street"[2];
    assert low[0..6][2] == low[2];
    NoWholeWordPastFront(low, "st");
    NoWholeWordPastFront(low, "street");
  }

  // ---------------------------------------------------------------- one page

  /** The line of the last match: every matching line overwrites what an earlier one set. */
  function LastAnchor(lines: Page, anchor: string): (r: Option<nat>)
    ensures r.Some? ==> r.value < |lines| && Contains(lines[r.value], anchor)
                        && forall j :: r.value < j < |lines| ==> !Contains(lines[j], anchor)
    ensures r.None? ==> forall j :: 0 <= j < |lines| ==> !Contains(lines[j], anchor)
  {
    if |lines| == 0 then None
    else if Contains(lines[|lines| - 1], anchor) then Some(|lines| - 1)
    else LastAnchor(lines[..|lines| - 1], anchor)
  }

  predicate IsAnchorLine(line: string) {
    Contains(line, PARTNERSHIP_ANCHOR) || Contains(line, PARTNER_ANCHOR)
  }

  /** No anchor sits within three lines of the page's end, where `lines[line_number + 3]`
      would raise IndexError. */
  predicate AnchorsInBounds(lines: Page) {
    forall j :: 0 <= j < |lines| && IsAnchorLine(lines[j]) ==> j + ENTITY_OFFSET < |lines|
  }

  /** The issuing entity read at an anchor, if there is one. */
  function IssuingFrom(lines: Page, anchor: Option<nat>): Option<string>
    requires anchor.Some? ==> anchor.value + ENTITY_OFFSET < |lines|
  {
    match anchor
    case None => None
    case Some(a) => Some(IssuingAt(lines, a))
  }

  /** The receiving entity read at an anchor, if there is one. */
  function ReceivingFrom(lines: Page, anchor: Option<nat>): Option<string>
    requires anchor.Some? ==> anchor.value + ENTITY_OFFSET < |lines|
  {
    match anchor
    case None => None
    case Some(a) => Some(ReceivingAt(lines, a))
  }

  /** The entities a form page yields: `None` for an anchor the page lacks. */
  function ResolveLines(lines: Page): Entities
    requires AnchorsInBounds(lines)
  {
    Entities(IssuingFrom(lines, LastAnchor(lines, PARTNERSHIP_ANCHOR)),
             ReceivingFrom(lines, LastAnchor(lines, PARTNER_ANCHOR)))
  }

  /** The last anchor among the first `j` lines is one of the page's anchor lines. */
  lemma LastAnchorOfPrefix(lines: Page, j: nat, anchor: string)
    requires j <= |lines|
    ensures LastAnchor(lines[..j], anchor).Some? ==>
      LastAnchor(lines[..j], anchor).value < j && Contains(lines[LastAnchor(lines[..j], anchor).value], anchor)
  {
    var r := LastAnchor(lines[..j], anchor);
    if r.Some? {
      assert lines[..j][r.value] == lines[r.value];
    }
  }

  /** Under `AnchorsInBounds`, the last partnership or partner anchor of a prefix can be read at. */
  lemma PrefixAnchorInBounds(lines: Page, j: nat)
    requires j <= |lines| && AnchorsInBounds(lines)
    ensures LastAnchor(lines[..j], PARTNERSHIP_ANCHOR).Some? ==> LastAnchor(lines[..j], PARTNERSHIP_ANCHOR).value + ENTITY_OFFSET < |lines|
    ensures LastAnchor(lines[..j], PARTNER_ANCHOR).Some? ==> LastAnchor(lines[..j], PARTNER_ANCHOR).value + ENTITY_OFFSET < |lines|
  {
    LastAnchorOfPrefix(lines, j, PARTNERSHIP_ANCHOR);
    LastAnchorOfPrefix(lines, j, PARTNER_ANCHOR);
  }

  /** The issuing entity after the loop has seen the first `j` lines. */
  function IssuingUpTo(lines: Page, j: nat): Option<string>
    requires j <= |lines| && AnchorsInBounds(lines)
  {
    PrefixAnchorInBounds(lines, j);
    IssuingFrom(lines, LastAnchor(lines[..j], PARTNERSHIP_ANCHOR))
  }

  /** The receiving entity after the loop has seen the first `j` lines. */
  function ReceivingUpTo(lines: Page, j: nat): Option<string>
    requires j <= |lines| && AnchorsInBounds(lines)
  {
    PrefixAnchorInBounds(lines, j);
    ReceivingFrom(lines, LastAnchor(lines[..j], PARTNER_ANCHOR))
  }

  /** One line of the loop: a partnership anchor line overwrites the issuing entity, any
      other line keeps it. */
  lemma IssuingStep(lines: Page, j: nat, before: Option<string>, after: Option<string>)
    requires j < |lines| && AnchorsInBounds(lines)
    requires before == IssuingUpTo(lines, j)
    requires after == if Contains(lines[j], PARTNERSHIP_ANCHOR) then Some(IssuingAt(lines, j)) else before
    ensures after == IssuingUpTo(lines, j + 1)
  {
    LastAnchorStep(lines, j, PARTNERSHIP_ANCHOR);
  }

  /** The same for a partner anchor line and the receiving entity. */
  lemma ReceivingStep(lines: Page, j: nat, before: Option<string>, after: Option<string>)
    requires j < |lines| && AnchorsInBounds(lines)
    requires before == ReceivingUpTo(lines, j)
    requires after == if Contains(lines[j], PARTNER_ANCHOR) then Some(ReceivingAt(lines, j)) else before
    ensures after == ReceivingUpTo(lines, j + 1)
  {
    LastAnchorStep(lines, j, PARTNER_ANCHOR);
  }

  /** Having seen every line, the loop holds what `ResolveLines` reads. */
  lemma ScanAll(lines: Page)
    requires AnchorsInBounds(lines)
    ensures Entities(IssuingUpTo(lines, |lines|), ReceivingUpTo(lines, |lines|)) == ResolveLines(lines)
  {
    assert lines[..|lines|] == lines;
  }

  /** One more line: it becomes the last anchor exactly when it holds the anchor. */
  lemma LastAnchorStep(lines: Page, j: nat, anchor: string)
    requires j < |lines|
    ensures LastAnchor(lines[..j + 1], anchor) == if Contains(lines[j], anchor) then Some(j) else LastAnchor(lines[..j], anchor)
  {
    assert lines[..j + 1][..j] == lines[..j];
    assert lines[..j + 1][j] == lines[j];
  }

  /** An entity is found exactly when its anchor occurs on the page, and then it is read at
      the last such anchor. */
  lemma ResolveLinesFound(lines: Page)
    requires AnchorsInBounds(lines)
    ensures ResolveLines(lines).issuing.Some?
        <==> exists j :: 0 <= j < |lines| && Contains(lines[j], PARTNERSHIP_ANCHOR)
    ensures ResolveLines(lines).receiving.Some?
        <==> exists j :: 0 <= j < |lines| && Contains(lines[j], PARTNER_ANCHOR)
    ensures forall j :: (0 <= j < |lines| && Contains(lines[j], PARTNERSHIP_ANCHOR)
                         && (forall m :: j < m < |lines| ==> !Contains(lines[m], PARTNERSHIP_ANCHOR)))
                        ==> ResolveLines(lines).issuing == Some(IssuingAt(lines, j))
    ensures forall j :: (0 <= j < |lines| && Contains(lines[j], PARTNER_ANCHOR)
                         && (forall m :: j < m < |lines| ==> !Contains(lines[m], PARTNER_ANCHOR)))
                        ==> ResolveLines(lines).receiving == Some(ReceivingAt(lines, j))
  {
    forall j | 0 <= j < |lines| && Contains(lines[j], PARTNERSHIP_ANCHOR)
        && (forall m :: j < m < |lines| ==> !Contains(lines[m], PARTNERSHIP_ANCHOR))
      ensures LastAnchor(lines, PARTNERSHIP_ANCHOR) == Some(j)
    {
      LastAnchorIs(lines, PARTNERSHIP_ANCHOR, j);
    }
    forall j | 0 <= j < |lines| && Contains(lines[j], PARTNER_ANCHOR)
        && (forall m :: j < m < |lines| ==> !Contains(lines[m], PARTNER_ANCHOR))
      ensures LastAnchor(lines, PARTNER_ANCHOR) == Some(j)
    {
      LastAnchorIs(lines, PARTNER_ANCHOR, j);
    }
  }

  /** An anchor line with none after it is the last anchor. */
  lemma LastAnchorIs(lines: Page, anchor: string, j: nat)
    requires j < |lines| && Contains(lines[j], anchor)
    requires forall m :: j < m < |lines| ==> !Contains(lines[m], anchor)
    ensures LastAnchor(lines, anchor) == Some(j)
  {
  }

  // ---------------------------------------------------------------- a document

  /** `"Schedule K-1 (Form 1065)" in text`. */
  predicate PageHasForm(page: Page) {
    exists j :: 0 <= j < |page| && Contains(page[j], FORM_MARKER)
  }

  /** The page the scan stops at: the first one carrying the form marker. */
  function FirstFormPage(pages: Document): (r: Option<nat>)
    ensures r.Some? ==> r.value < |pages| && PageHasForm(pages[r.value])
                        && forall q :: 0 <= q < r.value ==> !PageHasForm(pages[q])
    ensures r.None? ==> forall q :: 0 <= q < |pages| ==> !PageHasForm(pages[q])
  {
    if |pages| == 0 then None
    else if PageHasForm(pages[0]) then Some(0)
    else match FirstFormPage(pages[1..])
      case None => None
      case Some(p) => Some(p + 1)
  }

  /** The scan of this document raises no IndexError. */
  predicate Extractable(pages: Document) {
    match FirstFormPage(pages)
    case None => true
    case Some(p) => AnchorsInBounds(pages[p])
  }

  /** The entities the scan of a document finds. */
  function ResolvePages(pages: Document): Entities
    requires Extractable(pages)
  {
    match FirstFormPage(pages)
    case None => Entities(None, None)
    case Some(p) => ResolveLines(pages[p])
  }

  /** A document without the form yields neither entity. */
  lemma NoFormNoEntities(pages: Document)
    requires forall q :: 0 <= q < |pages| ==> !PageHasForm(pages[q])
    ensures Extractable(pages) && ResolvePages(pages) == Entities(None, None)
  {
  }

  /** Pages after the first form page are never read. */
  lemma {:induction false} LaterPagesIgnored(pages: Document, more: Document)
    requires exists q :: 0 <= q < |pages| && PageHasForm(pages[q])
    ensures FirstFormPage(pages + more) == FirstFormPage(pages)
    ensures Extractable(pages + more) == Extractable(pages)
    ensures Extractable(pages) ==> ResolvePages(pages + more) == ResolvePages(pages)
  {
    var p := FirstFormPage(pages).value;
    var all := pages + more;
    assert all[p] == pages[p];
    forall q | 0 <= q < p ensures !PageHasForm(all[q]) {
      assert all[q] == pages[q];
    }
    FirstFormPageIs(all, p);
  }

  /** Pages before the first form page change nothing either. */
  lemma {:induction false} EarlierPagesIgnored(before: Document, pages: Document)
    requires forall q :: 0 <= q < |before| ==> !PageHasForm(before[q])
    ensures Extractable(before + pages) == Extractable(pages)
    ensures Extractable(pages) ==> ResolvePages(before + pages) == ResolvePages(pages)
  {
    var all := before + pages;
    match FirstFormPage(pages)
    case None =>
      forall q | 0 <= q < |all| ensures !PageHasForm(all[q]) {
        if q >= |before| {
          assert all[q] == pages[q - |before|];
        } else {
          assert all[q] == before[q];
        }
      }
    case Some(p) =>
      assert all[|before| + p] == pages[p];
      forall q | 0 <= q < |before| + p ensures !PageHasForm(all[q]) {
        if q >= |before| {
          assert all[q] == pages[q - |before|];
        } else {
          assert all[q] == before[q];
        }
      }
      FirstFormPageIs(all, |before| + p);
  }

  /** The characterisation pins the first form page down. */
  lemma FirstFormPageIs(pages: Document, p: nat)
    requires p < |pages| && PageHasForm(pages[p])
    requires forall q :: 0 <= q < p ==> !PageHasForm(pages[q])
    ensures FirstFormPage(pages) == Some(p)
  {
  }

  // ---------------------------------------------------------------- the scan, step by step

  /** The page and line loops of `extract_entities` for one document, with the `break` after
      the first form page. */
  method ScanPages(pages: Document) returns (found: Entities)
    requires Extractable(pages)
    ensures found == ResolvePages(pages)
  {
    found := Entities(None, None);
    var p := 0;
    while p < |pages|
      invariant 0 <= p <= |pages|
      invariant forall q :: 0 <= q < p ==> !PageHasForm(pages[q])
      invariant found == Entities(None, None)
    {
      if PageHasForm(pages[p]) {
        FirstFormPageIs(pages, p);
        found := ScanLines(pages[p]);
        return;
      }
      p := p + 1;
    }
  }

  /** The line loop over one form page: each anchor line overwrites its entity. */
  method ScanLines(lines: Page) returns (found: Entities)
    requires AnchorsInBounds(lines)
    ensures found == ResolveLines(lines)
  {
    var issuing: Option<string> := None;
    var receiving: Option<string> := None;
    var j := 0;
    while j < |lines|
      invariant 0 <= j <= |lines|
      invariant issuing == IssuingUpTo(lines, j)
      invariant receiving == ReceivingUpTo(lines, j)
    {
      ghost var issuing0, receiving0 := issuing, receiving;
      if Contains(lines[j], PARTNERSHIP_ANCHOR) {
        issuing := Some(IssuingAt(lines, j));
      }
      IssuingStep(lines, j, issuing0, issuing);
      if Contains(lines[j], PARTNER_ANCHOR) {
        receiving := Some(ReceivingAt(lines, j));
      }
      ReceivingStep(lines, j, receiving0, receiving);
      j := j + 1;
    }
    ScanAll(lines);
    found := Entities(issuing, receiving);
  }

  // ---------------------------------------------------------------- over the record array

  /** The records `k1_files_to_extract` selects: neither entity known yet. */
  predicate NeedsExtraction(r: K1Record) {
    r.issuingEntity.None? && r.receivingEntity.None?
  }

  /** Every record due for extraction has a document whose scan raises no IndexError. */
  predicate AllExtractable(records: seq<K1Record>, documents: string -> Document) {
    forall i :: 0 <= i < |records| && NeedsExtraction(records[i]) ==> Extractable(documents(records[i].path))
  }

  /** One record after the pass: a selected record takes the entities its document yields. */
  function ExtractRecord(r: K1Record, documents: string -> Document): K1Record
    requires NeedsExtraction(r) ==> Extractable(documents(r.path))
  {
    if NeedsExtraction(r) then
      var found := ResolvePages(documents(r.path));
      r.(issuingEntity := found.issuing, receivingEntity := found.receiving)
    else r
  }

  /** The record array after `extract_entities`. */
  function ExtractAll(records: seq<K1Record>, documents: string -> Document): (result: seq<K1Record>)
    requires AllExtractable(records, documents)
    ensures |result| == |records|
  {
    seq(|records|, i requires 0 <= i < |records| => ExtractRecord(records[i], documents))
  }

  /** Record `i` after the pass, one case at a time. */
  lemma ExtractAllAt(records: seq<K1Record>, documents: string -> Document, i: int)
    requires AllExtractable(records, documents) && 0 <= i < |records|
    ensures NeedsExtraction(records[i]) ==> Extractable(documents(records[i].path))
    ensures !NeedsExtraction(records[i]) ==> ExtractAll(records, documents)[i] == records[i]
    ensures NeedsExtraction(records[i]) ==>
      var found := ResolvePages(documents(records[i].path));
      ExtractAll(records, documents)[i] == records[i].(issuingEntity := found.issuing, receivingEntity := found.receiving)
  {
  }

  /** Records with an entity already known are left exactly as they were; every record keeps
      its path, investment name and key. */
  lemma ExtractKeepsOthers(records: seq<K1Record>, documents: string -> Document)
    requires AllExtractable(records, documents)
    ensures forall i :: 0 <= i < |records| && !NeedsExtraction(records[i]) ==> ExtractAll(records, documents)[i] == records[i]
    ensures forall i :: 0 <= i < |records| ==>
      && ExtractAll(records, documents)[i].path == records[i].path
      && ExtractAll(records, documents)[i].investmentName == records[i].investmentName
      && ExtractAll(records, documents)[i].matchingKey == records[i].matchingKey
  {
  }

  /** A second pass over the same documents changes nothing: a record still without entities
      is one whose document yields none. */
  lemma ExtractIdempotent(records: seq<K1Record>, documents: string -> Document)
    requires AllExtractable(records, documents)
    ensures AllExtractable(ExtractAll(records, documents), documents)
    ensures ExtractAll(ExtractAll(records, documents), documents) == ExtractAll(records, documents)
  {
    var once := ExtractAll(records, documents);
    assert forall i :: 0 <= i < |once| && NeedsExtraction(once[i]) ==> NeedsExtraction(records[i]) && once[i] == records[i];
    var twice := ExtractAll(once, documents);
    assert forall i :: 0 <= i < |once| ==> twice[i] == once[i];
  }
}
