/**
 * The synopsis lines of the checked-in bindings, parsed. Each example is
 * assembled from small facts (the line is a rendering of its names, each
 * name is plain and cleans to itself or to its unescaped form) and the
 * general round trip `ParseRendered`; the facts about string literals are
 * kept one per lemma so that each stays cheap to check.
 */
module SynopsisExamples {
  import opened JsString
  import opened Results
  import opened SynopsisParser

  /** The markup of one required parameter. */
  function RequiredPiece(p: string): string
  {
    " *" + p + "*"
  }

  /** The markup of one optional parameter. */
  function OptionalPiece(o: string): string
  {
    "\\[*" + o + "*\\] "
  }

  lemma RequiredTextOne(a: string)
    ensures RequiredText([a]) == RequiredPiece(a)
  {
    assert RequiredText([a]) == RequiredPiece(a) + RequiredText([]);
  }

  lemma RequiredTextTwo(a: string, b: string)
    ensures RequiredText([a, b]) == RequiredPiece(a) + RequiredPiece(b)
  {
    assert [a, b][1..] == [b];
    assert RequiredText([b]) == RequiredPiece(b) + RequiredText([]);
  }

  lemma OptionalTextTwo(a: string, b: string)
    ensures OptionalText([a, b]) == OptionalPiece(a) + OptionalPiece(b)
  {
    assert [a, b][1..] == [b];
    assert OptionalText([b]) == OptionalPiece(b) + OptionalText([]);
  }

  lemma OptionalTextFour(a: string, b: string, c: string, d: string)
    ensures OptionalText([a, b, c, d]) == OptionalPiece(a) + OptionalPiece(b) + OptionalPiece(c) + OptionalPiece(d)
  {
    assert [a, b, c, d][1..] == [b, c, d];
    OptionalTextTwo(c, d);
    assert [b, c, d][1..] == [c, d];
    assert OptionalText([b, c, d]) == OptionalPiece(b) + OptionalText([c, d]);
  }

  lemma CleanAllOne(a: string)
    ensures CleanAll([a]) == [Clean(a)]
  {
    assert CleanAll([a]) == [Clean(a)] + CleanAll([]);
  }

  lemma CleanAllTwo(a: string, b: string)
    ensures CleanAll([a, b]) == [Clean(a), Clean(b)]
  {
    assert [a, b][1..] == [b];
    assert CleanAll([b]) == [Clean(b)] + CleanAll([]);
  }

  lemma CleanAllFour(a: string, b: string, c: string, d: string)
    ensures CleanAll([a, b, c, d]) == [Clean(a), Clean(b), Clean(c), Clean(d)]
  {
    assert [a, b, c, d][1..] == [b, c, d];
    CleanAllTwo(c, d);
    assert [b, c, d][1..] == [c, d];
    assert CleanAll([b, c, d]) == [Clean(b)] + CleanAll([c, d]);
  }

  /** One escaped character inside a name is dropped: `cycle\_seconds` becomes `cycle_seconds`. */
  lemma CleanOneEscape(a: string, b: string)
    requires '\\' !in a && '\\' !in b
    requires a != [] && !IsSpace(a[0]) && b != [] && !IsSpace(b[|b| - 1])
    ensures Clean(a + "\\" + b) == a + b
  {
    var s := a + "\\" + b;
    assert s[0] == a[0] && s[|s| - 1] == b[|b| - 1];
    TrimTrimmed(s);
    assert s == a + ("\\" + b);
    RemoveCharConcat(a, "\\" + b, '\\');
    RemoveCharConcat("\\", b, '\\');
    RemoveCharKeeps(a, '\\');
    RemoveCharKeeps(b, '\\');
    assert ReplaceAll("\\", "\\", "") == "" + ReplaceAll("", "\\", "");
  }

  // Facts about single names

  lemma NameDecode()
    ensures Clean("decode") == "decode"
  {
    CleanPlain("decode");
  }

  lemma NameString()
    ensures Clean("string") == "string"
  {
    CleanPlain("string");
  }

  lemma NameListinvoices()
    ensures Clean("listinvoices") == "listinvoices"
  {
    CleanPlain("listinvoices");
  }

  lemma NameLabel()
    ensures Clean("label") == "label"
  {
    CleanPlain("label");
  }

  lemma NameInvstring()
    ensures Clean("invstring") == "invstring"
  {
    CleanPlain("invstring");
  }

  lemma NamePaymentHash()
    ensures Clean("payment_hash") == "payment_hash"
  {
    CleanPlain("payment_hash");
  }

  lemma NameOfferId()
    ensures Clean("offer_id") == "offer_id"
  {
    CleanPlain("offer_id");
  }

  lemma NameAutocleaninvoice()
    ensures Clean("autocleaninvoice") == "autocleaninvoice"
  {
    CleanPlain("autocleaninvoice");
  }

  lemma NameOffer()
    ensures Clean("offer") == "offer"
  {
    CleanPlain("offer");
  }

  lemma NameAmount()
    ensures Clean("amount") == "amount"
  {
    CleanPlain("amount");
  }

  lemma NameDescription()
    ensures Clean("description") == "description"
  {
    CleanPlain("description");
  }

  lemma NameIssuer()
    ensures Clean("issuer") == "issuer"
  {
    CleanPlain("issuer");
  }

  lemma NameCycleSeconds()
    ensures Clean("cycle\\_seconds") == "cycle_seconds"
  {
    EscapedCycleSeconds();
    CleanOneEscape("cycle", "_seconds");
  }

  /** The name as written is its two halves around one backslash. */
  lemma EscapedCycleSeconds()
    ensures "cycle" + "\\" + "_seconds" == "cycle\\_seconds" && "cycle" + "_seconds" == "cycle_seconds"
    ensures '\\' !in "cycle" && '\\' !in "_seconds"
    ensures !IsSpace("cycle"[0]) && !IsSpace("_seconds"[7])
  {
  }

  lemma NameExpiredBy()
    ensures Clean("expired\\_by") == "expired_by"
  {
    EscapedExpiredBy();
    CleanOneEscape("expired", "_by");
  }

  /** The name as written is its two halves around one backslash. */
  lemma EscapedExpiredBy()
    ensures "expired" + "\\" + "_by" == "expired\\_by" && "expired" + "_by" == "expired_by"
    ensures '\\' !in "expired" && '\\' !in "_by"
    ensures !IsSpace("expired"[0]) && !IsSpace("_by"[2])
  {
  }

  // Markup of single parameters

  lemma RequiredString()
    ensures RequiredPiece("string") == " *string*"
  {
  }

  lemma RequiredAmount()
    ensures RequiredPiece("amount") == " *amount*"
  {
  }

  lemma RequiredDescription()
    ensures RequiredPiece("description") == " *description*"
  {
  }

  lemma OptionalLabel()
    ensures OptionalPiece("label") == "\\[*label*\\] "
  {
  }

  lemma OptionalInvstring()
    ensures OptionalPiece("invstring") == "\\[*invstring*\\] "
  {
  }

  lemma OptionalPaymentHash()
    ensures OptionalPiece("payment_hash") == "\\[*payment_hash*\\] "
  {
  }

  lemma OptionalOfferId()
    ensures OptionalPiece("offer_id") == "\\[*offer_id*\\] "
  {
  }

  lemma OptionalCycleSeconds()
    ensures OptionalPiece("cycle\\_seconds") == "\\[*cycle\\_seconds*\\] "
  {
  }

  lemma OptionalExpiredBy()
    ensures OptionalPiece("expired\\_by") == "\\[*expired\\_by*\\] "
  {
  }

  lemma OptionalIssuer()
    ensures OptionalPiece("issuer") == "\\[*issuer*\\] "
  {
  }

  // generated/decode.ts

  /** The documentation line, one piece per token of the grammar. */
  lemma DecodeLine()
    ensures Render("decode", ["string"], []) == "**decode**" + " *string*" + " "
  {
    RequiredTextOne("string");
    RequiredString();
    assert "**decode**" == NameMark + "decode" + NameMark;
    assert OptionalText([]) == "";
  }

  /** The names of the line hold no `*` and no `[`. */
  lemma DecodePlain()
    ensures var ps := ["string"];
      forall i :: 0 <= i < |ps| ==> PlainName(ps[i])
  {
  }

  /** `**decode** *string* ` gives `decode`, `[string]` and `[]`. */
  lemma ParseDecode()
    ensures Parse("**decode**" + " *string*" + " ") == Success(Synopsis("decode", ["string"], []))
  {
    DecodeLine();
    DecodePlain();
    NameDecode();
    NameString();
    CleanAllOne("string");
    ParseRendered("decode", ["string"], []);
  }

  // generated/listinvoices.ts

  /** The documentation line, one piece per token of the grammar. */
  lemma ListinvoicesLine()
    ensures Render("listinvoices", [], ["label", "invstring", "payment_hash", "offer_id"])
      == "**listinvoices** " + "\\[*label*\\] " + "\\[*invstring*\\] " + "\\[*payment_hash*\\] " + "\\[*offer_id*\\] "
  {
    OptionalTextFour("label", "invstring", "payment_hash", "offer_id");
    OptionalLabel();
    OptionalInvstring();
    OptionalPaymentHash();
    OptionalOfferId();
    assert "**listinvoices** " == NameMark + "listinvoices" + NameMark + RequiredText([]) + " ";
  }

  /** The names of the line hold no `*` and no `[`. */
  lemma ListinvoicesPlain()
    ensures var os := ["label", "invstring", "payment_hash", "offer_id"];
      forall i :: 0 <= i < |os| ==> PlainName(os[i])
  {
  }

  /** The names of the line are already clean. */
  lemma ListinvoicesCleaned()
    ensures Clean("listinvoices") == "listinvoices"
    ensures CleanAll(["label", "invstring", "payment_hash", "offer_id"]) == ["label", "invstring", "payment_hash", "offer_id"]
  {
    NameListinvoices();
    NameLabel();
    NameInvstring();
    NamePaymentHash();
    NameOfferId();
    CleanAllFour("label", "invstring", "payment_hash", "offer_id");
  }

  /** The names of the line, rendered and parsed back. */
  lemma ListinvoicesRendered()
    ensures Parse(Render("listinvoices", [], ["label", "invstring", "payment_hash", "offer_id"])) == Success(Synopsis("listinvoices", [], ["label", "invstring", "payment_hash", "offer_id"]))
  {
    ListinvoicesPlain();
    ListinvoicesCleaned();
    ParseRendered("listinvoices", [], ["label", "invstring", "payment_hash", "offer_id"]);
  }

  /** The query command has no required parameter and four optional ones, in order. */
  lemma ParseListinvoices()
    ensures Parse("**listinvoices** " + "\\[*label*\\] " + "\\[*invstring*\\] " + "\\[*payment_hash*\\] " + "\\[*offer_id*\\] ")
      == Success(Synopsis("listinvoices", [], ["label", "invstring", "payment_hash", "offer_id"]))
  {
    ListinvoicesLine();
    ListinvoicesRendered();
  }

  // generated/autocleaninvoice.ts

  /** The documentation line, one piece per token of the grammar. */
  lemma AutocleaninvoiceLine()
    ensures Render("autocleaninvoice", [], ["cycle\\_seconds", "expired\\_by"])
      == "**autocleaninvoice** " + "\\[*cycle\\_seconds*\\] " + "\\[*expired\\_by*\\] "
  {
    OptionalTextTwo("cycle\\_seconds", "expired\\_by");
    OptionalCycleSeconds();
    OptionalExpiredBy();
    assert "**autocleaninvoice** " == NameMark + "autocleaninvoice" + NameMark + RequiredText([]) + " ";
  }

  /** The names of the line hold no `*` and no `[`. */
  lemma AutocleaninvoicePlain()
    ensures var os := ["cycle\\_seconds", "expired\\_by"];
      forall i :: 0 <= i < |os| ==> PlainName(os[i])
  {
  }

  /** The names of the line, rendered and parsed back. */
  lemma AutocleaninvoiceRendered()
    ensures Parse(Render("autocleaninvoice", [], ["cycle\\_seconds", "expired\\_by"])) == Success(Synopsis("autocleaninvoice", [], ["cycle_seconds", "expired_by"]))
  {
    AutocleaninvoicePlain();
    NameAutocleaninvoice();
    NameCycleSeconds();
    NameExpiredBy();
    CleanAllTwo("cycle\\_seconds", "expired\\_by");
    ParseRendered("autocleaninvoice", [], ["cycle\\_seconds", "expired\\_by"]);
  }

  /** The escaped underscores of the documentation are removed from the names. */
  lemma ParseAutocleaninvoice()
    ensures Parse("**autocleaninvoice** " + "\\[*cycle\\_seconds*\\] " + "\\[*expired\\_by*\\] ")
      == Success(Synopsis("autocleaninvoice", [], ["cycle_seconds", "expired_by"]))
  {
    AutocleaninvoiceLine();
    AutocleaninvoiceRendered();
  }

  // The offer command: required parameters before optional ones

  /** The documentation line, one piece per token of the grammar. */
  lemma OfferLine()
    ensures Render("offer", ["amount", "description"], ["issuer", "label"])
      == "**offer**" + " *amount*" + " *description*" + " " + "\\[*issuer*\\] " + "\\[*label*\\] "
  {
    RequiredTextTwo("amount", "description");
    RequiredAmount();
    RequiredDescription();
    OptionalTextTwo("issuer", "label");
    OptionalIssuer();
    OptionalLabel();
    assert "**offer**" == NameMark + "offer" + NameMark;
  }

  /** The names of the line hold no `*` and no `[`. */
  lemma OfferPlain()
    ensures var ps := ["amount", "description"];
      forall i :: 0 <= i < |ps| ==> PlainName(ps[i])
    ensures var os := ["issuer", "label"];
      forall i :: 0 <= i < |os| ==> PlainName(os[i])
  {
  }

  /** The names of the line, rendered and parsed back. */
  lemma OfferRendered()
    ensures Parse(Render("offer", ["amount", "description"], ["issuer", "label"])) == Success(Synopsis("offer", ["amount", "description"], ["issuer", "label"]))
  {
    OfferPlain();
    NameOffer();
    NameAmount();
    NameDescription();
    NameIssuer();
    NameLabel();
    CleanAllTwo("amount", "description");
    CleanAllTwo("issuer", "label");
    ParseRendered("offer", ["amount", "description"], ["issuer", "label"]);
  }

  /** Required and optional names each come back in declaration order. */
  lemma ParseOffer()
    ensures Parse("**offer**" + " *amount*" + " *description*" + " " + "\\[*issuer*\\] " + "\\[*label*\\] ")
      == Success(Synopsis("offer", ["amount", "description"], ["issuer", "label"]))
  {
    OfferLine();
    OfferRendered();
  }
}
