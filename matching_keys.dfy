/**
  The matching key of k1_processor.py: the string both sides of the reconciliation join on,
  `f"{investment_name}#{issuing_entity}#{receiving_entity}".lower()` with the stop characters
  space, full stop, comma, right single quotation mark and apostrophe deleted.
*/
module MatchingKeys {
  import opened Wrappers
  import opened Text

  const RIGHT_SINGLE_QUOTE: char := '\U{2019}'
  const APOSTROPHE: char := '\''

  /** The characters the translation table maps to "". */
  const KEY_STOP_CHARS: set<char> := {' ', '.', ',', RIGHT_SINGLE_QUOTE, APOSTROPHE}

  /** Lower-case, then delete the stop characters. */
  function Normalise(s: string): string {
    RemoveChars(Lower(s), KEY_STOP_CHARS)
  }

  /** A normalised string holds no stop character and no capital letter. */
  lemma NormaliseIsClean(s: string)
    ensures forall i :: 0 <= i < |Normalise(s)| ==> Normalise(s)[i] !in KEY_STOP_CHARS && !IsUpper(Normalise(s)[i])
  {
    RemoveCharsRemoves(Lower(s), KEY_STOP_CHARS);
    RemoveCharsKeepsLower(Lower(s), KEY_STOP_CHARS);
  }

  lemma NormaliseConcat(a: string, b: string)
    ensures Normalise(a + b) == Normalise(a) + Normalise(b)
  {
    LowerConcat(a, b);
    RemoveCharsConcat(Lower(a), Lower(b), KEY_STOP_CHARS);
  }

  /** Normalising a key again changes nothing. */
  lemma NormaliseIdempotent(s: string)
    ensures Normalise(Normalise(s)) == Normalise(s)
  {
    var r := Normalise(s);
    NormaliseIsClean(s);
    LowerOfLower(r);
    RemoveCharsAbsent(r, KEY_STOP_CHARS);
  }

  /** An f-string renders a missing entity (`None`) as the text "None". */
  function Display(entity: Option<string>): string {
    match entity
    case None => "None"
    case Some(s) => s
  }

  lemma NormaliseHash()
    ensures Normalise("#") == "#"
  {
    assert Lower("#") == "#";
    RemoveCharsAbsent("#", KEY_STOP_CHARS);
  }

  /** Normalising a '#'-joined triple normalises each part. */
  lemma NormaliseTriple(a: string, b: string, c: string)
    ensures Normalise(a + "#" + b + "#" + c) == Normalise(a) + "#" + Normalise(b) + "#" + Normalise(c)
  {
    NormaliseHash();
    NormaliseConcat(a + "#" + b + "#", c);
    NormaliseConcat(a + "#" + b, "#");
    NormaliseConcat(a + "#", b);
    NormaliseConcat(a, "#");
  }

  /** The key of one record, line 168: the three fields normalised one by one, joined by '#'. */
  function MatchingKey(investmentName: string, issuing: Option<string>, receiving: Option<string>): (key: string)
    ensures key == Normalise(investmentName) + "#" + Normalise(Display(issuing)) + "#" + Normalise(Display(receiving))
  {
    NormaliseTriple(investmentName, Display(issuing), Display(receiving));
    Normalise(investmentName + "#" + Display(issuing) + "#" + Display(receiving))
  }

  /** Deleting a stop character, or lower-casing first, does not change a normalised string. */
  lemma NormaliseIgnoresStopChar(x: string, c: char, y: string)
    requires c in KEY_STOP_CHARS
    ensures Normalise(x + [c] + y) == Normalise(x + y)
  {
    assert LowerChar(c) == c;
    assert Lower([c]) == [c];
    assert RemoveChars([c], KEY_STOP_CHARS) == [] + RemoveChars([], KEY_STOP_CHARS);
    NormaliseConcat(x + [c], y);
    NormaliseConcat(x, [c]);
    NormaliseConcat(x, y);
  }

  lemma NormaliseIgnoresCase(x: string)
    ensures Normalise(Lower(x)) == Normalise(x)
  {
    LowerOfLower(Lower(x));
  }

  /** A key holds no stop character and no capital letter. */
  lemma KeyIsClean(investmentName: string, issuing: Option<string>, receiving: Option<string>)
    ensures var key := MatchingKey(investmentName, issuing, receiving);
      forall i :: 0 <= i < |key| ==> key[i] !in KEY_STOP_CHARS && !IsUpper(key[i])
  {
    var raw := investmentName + "#" + Display(issuing) + "#" + Display(receiving);
    NormaliseIsClean(raw);
  }

  /** Case and stop characters in the inputs do not matter: inserting a stop character into the
      investment name, or lower-casing it, leaves the key as it was. */
  lemma KeyIgnoresStopCharsAndCase(x: string, c: char, y: string, issuing: Option<string>, receiving: Option<string>)
    requires c in KEY_STOP_CHARS
    ensures MatchingKey(x + [c] + y, issuing, receiving) == MatchingKey(x + y, issuing, receiving)
    ensures MatchingKey(Lower(x), issuing, receiving) == MatchingKey(x, issuing, receiving)
  {
    NormaliseIgnoresStopChar(x, c, y);
    NormaliseIgnoresCase(x);
  }

  lemma NormaliseNone()
    ensures Normalise("None") == "none"
  {
    assert Lower("None") == "none";
    RemoveCharsAbsent("none", KEY_STOP_CHARS);
  }

  /** A missing entity contributes the segment "none", so such a key is never a complete one. */
  lemma MissingEntityKey(investmentName: string, receiving: Option<string>)
    ensures MatchingKey(investmentName, None, receiving)
         == Normalise(investmentName) + "#" + "none" + "#" + Normalise(Display(receiving))
  {
    NormaliseNone();
  }

  /** The worked example: ("ACME FUND", "ACME FOREST LLC", "JOHN Q. PUBLIC"). */
  lemma KeyExample()
    ensures MatchingKey("ACME FUND", Some("ACME FOREST LLC"), Some("JOHN Q. PUBLIC"))
         == "acmefund" + "#" + "acmeforestllc" + "#" + "johnqpublic"
  {
    ExamplePhrase("ACME FUND", "ACME", "FUND", "acme", "fund");
    ExampleIssuing();
    ExampleReceiving();
  }

  lemma ExampleIssuing()
    ensures Normalise("ACME FOREST LLC") == "acmeforestllc"
  {
    ExamplePhrase("ACME FOREST", "ACME", "FOREST", "acme", "forest");
    ExamplePhrase("ACME FOREST LLC", "ACME FOREST", "LLC", "acmeforest", "llc");
  }

  lemma ExampleReceiving()
    ensures Normalise("JOHN Q. PUBLIC") == "johnqpublic"
  {
    assert Normalise("Q.") == "q" by {
      assert Lower("Q.") == "q.";
      assert RemoveChars("q.", KEY_STOP_CHARS) == ['q'] + RemoveChars(".", KEY_STOP_CHARS);
      assert RemoveChars(".", KEY_STOP_CHARS) == [] + RemoveChars([], KEY_STOP_CHARS);
    }
    ExamplePhrase("JOHN Q.", "JOHN", "Q.", "john", "q");
    ExamplePhrase("JOHN Q. PUBLIC", "JOHN Q.", "PUBLIC", "johnq", "public");
  }

  /** A literal made of two parts joined by a space normalises to their normal forms run
      together; a part of capital letters normalises to its lower-case form. */
  lemma ExamplePhrase(s: string, a: string, b: string, na: string, nb: string)
    requires s == a + " " + b
    requires Normalise(a) == na || ((forall i :: 0 <= i < |a| ==> IsUpper(a[i])) && Lower(a) == na)
    requires Normalise(b) == nb || ((forall i :: 0 <= i < |b| ==> IsUpper(b[i])) && Lower(b) == nb)
    ensures Normalise(s) == na + nb
  {
    if Normalise(a) != na {
      ExampleWord(a);
    }
    if Normalise(b) != nb {
      ExampleWord(b);
    }
    NormaliseWords(a, b, na, nb);
  }

  /** A word of capital letters normalises to its lower-case form. */
  lemma ExampleWord(w: string)
    requires forall i :: 0 <= i < |w| ==> IsUpper(w[i])
    ensures Normalise(w) == Lower(w)
  {
    forall i | 0 <= i < |w| ensures Lower(w)[i] !in KEY_STOP_CHARS {
      assert 'a' <= Lower(w)[i] <= 'z';
    }
    RemoveCharsAbsent(Lower(w), KEY_STOP_CHARS);
  }

  lemma NormaliseSpace()
    ensures Normalise(" ") == []
  {
    assert Lower(" ") == " ";
    assert RemoveChars(" ", KEY_STOP_CHARS) == [] + RemoveChars([], KEY_STOP_CHARS);
  }

  /** A word without stop characters normalises to its lower-case form. */
  lemma NormaliseWord(a: string, la: string)
    requires Lower(a) == la && forall i :: 0 <= i < |la| ==> la[i] !in KEY_STOP_CHARS
    ensures Normalise(a) == la
  {
    RemoveCharsAbsent(la, KEY_STOP_CHARS);
  }

  /** Two words joined by a space normalise to their normal forms run together. */
  lemma NormaliseWords(a: string, b: string, la: string, lb: string)
    requires Normalise(a) == la && Normalise(b) == lb
    ensures Normalise(a + " " + b) == la + lb
  {
    NormaliseConcat(a + " ", b);
    NormaliseConcat(a, " ");
    NormaliseSpace();
  }
}
