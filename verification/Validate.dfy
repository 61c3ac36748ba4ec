/** Well-formedness reports. */
module Validate {
  import opened Types
  import opened Grammar
  import opened Parser
  import ParserGrammar
  import Diagnosis
  import Documents

  function KindText(k: ErrorKind): string {
    match k
    case Truncated => "truncated"
    case TrailingBytes => "trailing-bytes"
    case InvalidTag => "invalid-tag"
    case LengthOverflow => "length-overflow"
    case IndefiniteInDer => "indefinite-in-der"
    case NonCanonical => "non-canonical"
    case BadTime => "bad-time"
    case BadOid => "bad-oid"
    case BadUtf8 => "bad-utf8"
    case NestingLimit => "nesting-limit"
    case AllocLimit => "alloc-limit"
  }

  /** The structured result; the human-readable message is not modelled. */
  datatype WellFormed = WellFormed(ok: bool, kind: string)

  /** `well_formed`: BER, the loosest rules. */
  function WellFormedOf(blob: Octets): WellFormed {
    match DocumentOf(blob, Ber)
    case Ok(_) => WellFormed(true, "")
    case Err(kind, _) => WellFormed(false, KindText(kind))
  }

  /** `is_valid` decides membership in the grammar. */
  lemma ValidIffDerivable(blob: Octets, rules: Rules)
    ensures IsValid(blob, rules) <==> exists t: Tlv :: Derives(rules, blob, t)
  {
    hide DocumentOf, Derives;
    if IsValid(blob, rules) {
      ParserGrammar.ParserIsGrammar(rules, blob, DocumentOf(blob, rules).value);
    }
    if t: Tlv :| Derives(rules, blob, t) {
      ParserGrammar.ParserIsGrammar(rules, blob, t);
    }
  }

  /** A report is positive exactly for derivable documents, and the kinds it names are six of
      the eleven: the others are never produced under BER. */
  lemma ReportIsExact(blob: Octets)
    ensures var w := WellFormedOf(blob);
            && (w.ok <==> exists t: Tlv :: Derives(Ber, blob, t))
            && (w.ok <==> w.kind == "")
            && (!w.ok ==> w.kind in {"truncated", "trailing-bytes", "invalid-tag", "length-overflow",
                                      "non-canonical", "nesting-limit"})
  {
    hide DocumentOf, Derives;
    ValidIffDerivable(blob, Ber);
    Documents.FailuresClassified(blob, Ber);
  }

  /** What each name in a report says about the document. */
  lemma ReportNames(blob: Octets, o: nat, k: ErrorKind)
    requires DocumentOf(blob, Ber) == Err(k, o)
    ensures var w := WellFormedOf(blob);
            && !w.ok
            && (w.kind == "truncated" <==> k == Truncated)
            && (w.kind == "trailing-bytes" <==> k == TrailingBytes)
            && (w.kind == "invalid-tag" <==> k == InvalidTag)
            && (w.kind == "length-overflow" <==> k == LengthOverflow)
            && (w.kind == "non-canonical" <==> k == NonCanonical)
            && (w.kind == "nesting-limit" <==> k == NestingLimit)
    ensures (k == TrailingBytes && o < |blob| && IsValid(blob[..o], Ber))
            || exists fs :: Diagnosis.Flawed(Ber, blob, 0, 0, fs, k) && o == Diagnosis.FrontLength(fs)
  {
    hide DocumentOf, Diagnosis.Flawed;
    Diagnosis.RefusalIsDiagnosed(Ber, blob, k, o);
    Documents.FailuresClassified(blob, Ber);
  }

  /** What the named rule sets accept: DER a subset of BER, CER all of it. */
  lemma RulesCompared(blob: Octets)
    ensures IsValid(blob, Der) ==> IsValid(blob, Ber)
    ensures IsValid(blob, Cer) <==> IsValid(blob, Ber)
  {
    hide DocumentOf;
    if IsValid(blob, Der) {
      Documents.DerRefinesBer(blob, DocumentOf(blob, Der).value);
    }
    Documents.CerReadsAsBer(blob);
  }
}
