/**
 * The request interfaces of the checked-in bindings, from the parsed
 * synopsis to the lines of the generated file. `pascalcase` is a library
 * function, so each example states the one value of it that it relies on.
 */
module EmitterExamples {
  import opened JsString
  import opened SynopsisParser
  import opened Emitter

  lemma FieldLinesOne(a: string, mark: string)
    ensures FieldLines([a], mark) == [FieldLine(a, mark)]
  {
  }

  lemma FieldLinesTwo(a: string, b: string, mark: string)
    ensures FieldLines([a, b], mark) == [FieldLine(a, mark), FieldLine(b, mark)]
  {
  }

  lemma FieldLinesFour(a: string, b: string, c: string, d: string, mark: string)
    ensures FieldLines([a, b, c, d], mark) == [FieldLine(a, mark), FieldLine(b, mark), FieldLine(c, mark), FieldLine(d, mark)]
  {
  }

  // generated/decode.ts

  lemma DecodeHeader()
    ensures InterfaceHeader("Decode") == "export interface DecodeRequest {"
  {
  }

  lemma FieldString()
    ensures FieldLine("string", "") == "  string: /* GUESSED */ string;"
  {
  }

  /** `decode` with one required `string`: lines 14-16 of the generated file. */
  lemma DecodeInterface(pascal: string -> string)
    requires pascal("decode") == "Decode"
    ensures Split(InterfaceText(pascal, Synopsis("decode", ["string"], [])), "\n")
      == ["export interface DecodeRequest {", "  string: /* GUESSED */ string;", "}"]
  {
    var s := Synopsis("decode", ["string"], []);
    assert s.parameters + s.optionalParameters == ["string"];
    InterfaceShape(pascal, s);
    DecodeHeader();
    FieldString();
    FieldLinesOne("string", "");
    assert FieldLines([], "?") == [];
  }

  // generated/listinvoices.ts

  lemma ListinvoicesHeader()
    ensures InterfaceHeader("Listinvoices") == "export interface ListinvoicesRequest {"
  {
  }

  lemma FieldLabel()
    ensures FieldLine("label", "?") == "  label?: /* GUESSED */ string;"
  {
  }

  lemma FieldInvstring()
    ensures FieldLine("invstring", "?") == "  invstring?: /* GUESSED */ string;"
  {
  }

  lemma FieldPaymentHash()
    ensures FieldLine("payment_hash", "?") == "  payment_hash?: /* GUESSED */ string;"
  {
  }

  lemma FieldOfferId()
    ensures FieldLine("offer_id", "?") == "  offer_id?: /* GUESSED */ string;"
  {
  }

  lemma ListinvoicesUnbroken()
    ensures forall p :: p in [] + ["label", "invstring", "payment_hash", "offer_id"] ==> '\n' !in p
  {
    assert [] + ["label", "invstring", "payment_hash", "offer_id"] == ["label", "invstring", "payment_hash", "offer_id"];
  }

  lemma ListinvoicesLines(pascal: string -> string)
    requires pascal("listinvoices") == "Listinvoices"
    ensures InterfaceLines(pascal, Synopsis("listinvoices", [], ["label", "invstring", "payment_hash", "offer_id"]))
      == ["export interface ListinvoicesRequest {",
          "  label?: /* GUESSED */ string;",
          "  invstring?: /* GUESSED */ string;",
          "  payment_hash?: /* GUESSED */ string;",
          "  offer_id?: /* GUESSED */ string;",
          "}"]
  {
    ListinvoicesHeader();
    FieldLabel();
    FieldInvstring();
    FieldPaymentHash();
    FieldOfferId();
    FieldLinesFour("label", "invstring", "payment_hash", "offer_id", "?");
    assert FieldLines([], "") == [];
  }

  /** `listinvoices` with four optional names and none required: lines 17-22 of the generated file. */
  lemma ListinvoicesInterface(pascal: string -> string)
    requires pascal("listinvoices") == "Listinvoices"
    ensures Split(InterfaceText(pascal, Synopsis("listinvoices", [], ["label", "invstring", "payment_hash", "offer_id"])), "\n")
      == ["export interface ListinvoicesRequest {",
          "  label?: /* GUESSED */ string;",
          "  invstring?: /* GUESSED */ string;",
          "  payment_hash?: /* GUESSED */ string;",
          "  offer_id?: /* GUESSED */ string;",
          "}"]
  {
    ListinvoicesUnbroken();
    InterfaceShape(pascal, Synopsis("listinvoices", [], ["label", "invstring", "payment_hash", "offer_id"]));
    ListinvoicesLines(pascal);
  }

  // generated/autocleaninvoice.ts

  lemma AutocleaninvoiceHeader()
    ensures InterfaceHeader("Autocleaninvoice") == "export interface AutocleaninvoiceRequest {"
  {
  }

  lemma FieldCycleSeconds()
    ensures FieldLine("cycle_seconds", "?") == "  cycle_seconds?: /* GUESSED */ string;"
  {
  }

  lemma FieldExpiredBy()
    ensures FieldLine("expired_by", "?") == "  expired_by?: /* GUESSED */ string;"
  {
  }

  /** `autocleaninvoice` with two optional names: lines 22-25 of the generated file. */
  lemma AutocleaninvoiceInterface(pascal: string -> string)
    requires pascal("autocleaninvoice") == "Autocleaninvoice"
    ensures Split(InterfaceText(pascal, Synopsis("autocleaninvoice", [], ["cycle_seconds", "expired_by"])), "\n")
      == ["export interface AutocleaninvoiceRequest {",
          "  cycle_seconds?: /* GUESSED */ string;",
          "  expired_by?: /* GUESSED */ string;",
          "}"]
  {
    var os := ["cycle_seconds", "expired_by"];
    var s := Synopsis("autocleaninvoice", [], os);
    assert s.parameters + s.optionalParameters == os;
    InterfaceShape(pascal, s);
    AutocleaninvoiceHeader();
    FieldCycleSeconds();
    FieldExpiredBy();
    FieldLinesTwo("cycle_seconds", "expired_by", "?");
    assert FieldLines([], "") == [];
  }
}
