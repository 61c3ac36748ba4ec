# ASN.1 codec: parser, canonical re-encoder and their clients

A Dafny model of the pure codec crate `asn1-core` and proofs about it.

* **Documents.** `Types`, `Base128` and `Base256` (numerals), `Grammar` (the encodings of ITU-T X.690
  sections 8.1.2 to 8.1.5 written from the tree to the octets: `Layout`, `Wf`, `Placed`), `HeaderReader`
  and `Parser` (the parser as functions and as methods), `ParserGrammar`, `Documents`, `Refusals`,
  `Diagnosis`, `Placement`, `OctetReading`, `Validate`. The main results are that the parser accepts
  exactly the grammar, and that what it refuses it refuses for exactly the flaw, and at the place, that
  is there; prefix, extension, nesting, span and stream properties follow.
* **Re-encoding.** `ByteOrder` (octet order, sorting, the order of X.690 section 11.6), `Base128Writer`,
  `Reencode`, `Canonical`, `Equivalence`, `Sizes`. The main results are the round trip, the exact
  condition under which a document is left alone, and canonical form: equal encodings if and only if
  equal trees up to layout and SET order.
* **Values.** `Text`, `Reversal`, `Integers`, `Oid`, `OidExamples`, `BitStrings`, `Civil`, `Times`:
  text and numbers in both directions.
* **Views and clients.** `Views` (rows, paths, OID inventory), `Meaning` (JSON projection, leaf
  octets), `Ldap`, `LdapFilters`, `FilterPatterns` and `FilterLooks` (filter text, RFC 4515), `Cms`,
  `SignedBlobs` and `SignerOrder` (signer to certificate match, on messages written out, and what
  reordering does to it).

How the source is read:

* Octets are numbers below 256 and bit operations are written as arithmetic. `usize` is 64 bits wide.
  No vector is longer than `VEC_MAX` (`isize::MAX`); theorems about re-encoding ask that the
  encoding fits in a vector, which `Sizes.BoundedGrowth` shows for every document below a fifth of
  that size.
* A slice is never longer than `isize::MAX`, so the checked addition of header and content length
  (tlv.rs:341-343) fails only where the comparison with the buffer fails too, with the same kind and
  offset; one comparison stands for both. The checks for a zero-length element (tlv.rs:387-389) and
  for a length above `usize::MAX` (tlv.rs:282-284) can never succeed and are left out.
* `&mut Vec` parameters are objects of class `Types.Vec`; local stacks and digit buffers that are
  written in place are arrays. The parser's one function is cut into one method per loop.
* `sort()`, `split`, `trim`, `parse` and `to_string` of the standard library are functions with their
  documented results; `ByteOrder.SortedUnique` shows that sorting leaves no choice.
* SHA-256 and the interpretation of primitive octets as JSON are parameters of the members that use
  them; so are UTF-8 decoding and the two- and four-octet string types in `Ldap`, and the tables of tag
  and OID names in `Views`. Filters are compared by their decoded text, and UTF-8 decoding is
  one-to-one.
* `checked_shl(7)` on 128-bit numbers checks the shift amount only, so bits are lost at the top
  (oid.rs:29); `arcs[0] * 40 + arcs[1]` wraps in a release build (oid.rs:108). Both are modelled, and
  both round trips are stated with the exact condition under which this does no harm.

Where the code and its comments or the standard differ the code is followed, and a lemma gives an input:

* `Rules::Cer` restricts nothing (`Documents.CerReadsAsBer`, `Documents.CerIsNotDer`).
* Re-encoding changes some DER-accepted documents (`Canonical.DerIdentity`,
  `Canonical.AcceptedUnderDerButChanged`).
* An ISO text ending in `Z` may show local time, a date that does not exist or a leap second counted as
  the next one (`Times.IsoDenotesInstant`; `Times.LocalTimeShownAsUtc`, `Times.UnrealDateAccepted`,
  `Times.LeapSecondAccepted`). A fraction after hours or minutes, which the comment at value.rs:132
  does not provide for, counts as one of a second (`Times.GeneralizedRoundTrip`).
* OIDs with subidentifiers from 2^128 on do not return (`Oid.LongSubidentifierIsLost`, `Oid.JointArcWraps`).
* Filters look alike exactly when `FilterLooks.RenderedAlike` says so, and some different ones do: with
  empty substring components (`FilterLooks.EmptyInitialLooksPresent`), with stray attribute descriptions
  (`FilterLooks.StrayAttributeLooksGreater`), and all extensible matches
  (`FilterLooks.ExtensibleLooksAlike`).
* A blob whose root is a universal SET may lose its signers when children are reordered
  (`SignerOrder.SignersSurviveReordering`, `SignerOrder.SetRootLosesSigner`).
* A BIT STRING content may have unused bits and no data; its bits are then not defined
  (`BitStrings.BitTextReadsBack`, `BitStrings.UnusedBitsWithoutData`).

## Model

| member | source | states |
|---|---|---|
| Parser.ParseHighTag | crates/asn1-core/src/tlv.rs:190-225 | The high-tag-number loop returns exactly `ReadHighTag`: first octet 0x80 refused, accumulator cut off above `u32::MAX` without losing a bit, tags below 31 refused. |
| Parser.ParseLongLength | crates/asn1-core/src/tlv.rs:270-274 | The length loop accumulates the base-256 value of the octets, and with at most 8 octets it fits a `usize`. |
| Parser.ParseLength | crates/asn1-core/src/tlv.rs:227-286 | All length forms and refusals under the three rule sets, in the order of the source. |
| Parser.ParseHeader | crates/asn1-core/src/tlv.rs:175-288 | Identifier then length octets; equal to `ReadHeader`, which the header lemmas below tie to the grammar. |
| Parser.ParseTlv | crates/asn1-core/src/tlv.rs:167-375 | The recursive parser with its cursors returns exactly `TlvOf`, with a real termination measure shared with the two loops. |
| Parser.ParseIndefinite | crates/asn1-core/src/tlv.rs:290-326 | The end-of-contents loop: children up to a 00 00 pair, each failure with its offset. |
| Parser.ParseChildren | crates/asn1-core/src/tlv.rs:377-394 | The children loop fills its buffer; equal to `ChildrenOf`. |
| Parser.ParseRules | crates/asn1-core/src/tlv.rs:399-413 | One element must span the input; otherwise trailing octets at its end. |
| Parser.ParseAll | crates/asn1-core/src/tlv.rs:423-426 | A stream of elements, read under BER. |
| Base128.MinimalDenotes | crates/asn1-core/src/reencode.rs:49-65 | The numeral written for a tag has continuation bits on all octets but the last, no leading zero group, and denotes the tag. |
| Base128.NumeralUnique | crates/asn1-core/src/tlv.rs:193-225 | A numeral without a leading zero group is the only one for its number. |
| HeaderReader.HeaderSound | crates/asn1-core/src/tlv.rs:175-288 | Octets read as a header are the octets the grammar writes for the header returned, and that header is admissible under the rules. |
| HeaderReader.HeaderComplete | crates/asn1-core/src/tlv.rs:175-288 | Every admissible header is read back from its octets, whatever follows them. |
| HeaderReader.HeaderTruncated | crates/asn1-core/src/tlv.rs:227-266 | A header cut anywhere is refused as truncated at the start of the element. |
| HeaderReader.DerLongFormMinimal | crates/asn1-core/src/tlv.rs:267-281 | The two DER checks on long lengths together say exactly: shortest form. |
| ParserGrammar.ParserIsGrammar | crates/asn1-core/src/tlv.rs:399-413 | For every input and rule set, the parser returns `Ok(t)` if and only if the input is the layout of `t`, `t` is admissible and its offsets tile the input. |
| ParserGrammar.StreamIsGrammar | crates/asn1-core/src/tlv.rs:421-426 | The same for streams of elements. |
| ParserGrammar.ReadingUnique | crates/asn1-core/src/tlv.rs:164-413 | A document derives at most one annotated tree. |
| Documents.ParseIsLocal | crates/asn1-core/src/tlv.rs:164-375 | A successful parse depends only on the octets it consumed. |
| Documents.StrictPrefixFails | crates/asn1-core/src/tlv.rs:227-352 | Every strict prefix of an accepted document fails, as truncated or as length overflow. |
| Documents.StrictExtensionFails | crates/asn1-core/src/tlv.rs:402-411 | Every strict extension of an accepted document fails with trailing octets at the length of the document. |
| Documents.CerReadsAsBer | crates/asn1-core/src/tlv.rs:150-152 | CER accepts and refuses exactly what BER does, with the same trees and errors (the comment at validate.rs:7-9 says otherwise). |
| Documents.CerIsNotDer | crates/asn1-core/src/validate.rs:7-12 | An indefinite length and an overlong length: two documents that are valid under CER and not under DER. |
| Documents.DerRefinesBer | crates/asn1-core/src/tlv.rs:240-281 | What DER accepts, BER accepts with the same tree. |
| Documents.FailuresClassified | crates/asn1-core/src/tlv.rs:66-80 | Every failure lies inside the document; trailing octets are reported exactly when a strict prefix is a document; indefinite only under DER; four kinds never. |
| Diagnosis.RefusalIsDiagnosed | crates/asn1-core/src/tlv.rs:164-413 | For every input, rule set, kind and offset: the document is refused so if and only if, entering some elements past their complete children, a reader comes there to a flaw of that kind (tag octets, length octets, content longer than what is there, end-of-contents, more than 256 levels), or a shorter document ends there. |
| Diagnosis.StreamRefusalIsDiagnosed | crates/asn1-core/src/tlv.rs:377-426 | The same for streams: some elements are complete and the next one is flawed. |
| Diagnosis.HeaderFails | crates/asn1-core/src/tlv.rs:175-288 | Each refusal of identifier and length octets, stated on the octets, and no other. |
| Diagnosis.DeclaredTooLong | crates/asn1-core/src/tlv.rs:341-352 | Any header that declares more content than follows is refused as length overflow at its start. |
| OctetReading.NodesReadOctets | crates/asn1-core/src/tlv.rs:175-375 | In every accepted document the octets at each node's place say what the tree says: class number in bits 8 and 7, constructed in bit 6, tag, length form and value, content, end-of-contents. |
| OctetReading.DerReadsOctets | crates/asn1-core/src/reencode.rs:14-81 | What is written for a node is these identifier octets, the shortest length octets, and its content. |
| Refusals.DerVerdict | crates/asn1-core/src/tlv.rs:240-281 | On a BER document, DER gives the same tree or reports the first element in document order whose length is not definite and shortest, with the right kind and at its offset. |
| Refusals.NestingLimitIsExact | crates/asn1-core/src/tlv.rs:168-174 | An otherwise admissible encoding is accepted exactly up to 256 levels below its root, and refused for its nesting beyond. |
| Placement.StreamConcat | crates/asn1-core/src/tlv.rs:377-426 | Parsing a concatenation gives the trees of both parts, the second ones shifted. |
| Placement.SpansTile | crates/asn1-core/src/tlv.rs:288-394 | In every accepted document each node spans at least two octets, the octets there are its own encoding, and pre-order offsets strictly increase. |
| Placement.ContentIsSplit | crates/asn1-core/src/tlv.rs:290-394 | The content of every constructed node is split by its children without gap or overlap. |
| Validate.ValidIffDerivable | crates/asn1-core/src/validate.rs:10-12 | `is_valid` decides membership in the grammar. |
| Validate.ReportIsExact | crates/asn1-core/src/validate.rs:24-36 | A report is positive exactly for derivable documents; a negative one names one of six kinds. |
| Validate.ReportNames | crates/asn1-core/src/validate.rs:24-36 | Which name goes with which kind of flaw in the document. |
| Validate.RulesCompared | crates/asn1-core/src/validate.rs:7-12 | DER accepts a subset of BER, CER all of it. |
| Base128Writer.PushBase128 | crates/asn1-core/src/reencode.rs:50-64 | Groups stacked in a fixed array and emitted in reverse are the minimal numeral; the stack suffices below 128^capacity. |
| Reencode.EncodeIdentifier | crates/asn1-core/src/reencode.rs:38-66 | Appends the identifier octets of the grammar; five stack octets hold every `u32` tag. |
| Reencode.EncodeLength | crates/asn1-core/src/reencode.rs:68-81 | Appends the shortest definite length, found by skipping zero octets of eight. |
| Reencode.EncodeNode | crates/asn1-core/src/reencode.rs:14-36 | The recursive encoder, with its vectors and its sorting step, appends exactly `ToDer`. |
| Reencode.ToDerBytes | crates/asn1-core/src/reencode.rs:8-12 | `to_der` starts from an empty vector. |
| Canonical.CanonLayout | crates/asn1-core/src/reencode.rs:14-36 | What the encoder writes is the layout of the canonical tree: definite shortest lengths, SET children sorted. |
| Canonical.RoundTrip | crates/asn1-core/src/reencode.rs:1-36 | For every BER document, the re-encoding is accepted under DER and parses to exactly the canonical tree, whose SETs are sorted. |
| Canonical.Idempotent | crates/asn1-core/src/reencode.rs:1-3 | Parsing and re-encoding again gives the same octets. |
| Canonical.DerIdentity | crates/asn1-core/src/reencode.rs:1-3 | A document is left alone if and only if it is accepted under DER and its universal SETs are sorted. |
| Canonical.AcceptedUnderDerButChanged | crates/asn1-core/src/reencode.rs:1-3 | A concrete DER-accepted document that re-encoding changes. |
| Canonical.StreamRoundTrip | crates/asn1-core/src/tlv.rs:421-426 | Parsing the concatenated re-encodings of a stream gives the canonical trees in order. |
| Equivalence.CanonicalForm | crates/asn1-core/src/reencode.rs:14-36 | Two parsed trees are re-encoded alike if and only if they are equal up to layout and, recursively, up to rearranging the children of universal SETs. |
| Equivalence.EquivSameDer | crates/asn1-core/src/reencode.rs:26-30 | Rearranging SET children or changing length forms does not change the encoding, for any trees. |
| Equivalence.SameDerEquiv | crates/asn1-core/src/reencode.rs:14-36 | Equal encodings come from equivalent trees only, for any trees whose constructed flag fits their body. |
| Equivalence.ConcatInjective | crates/asn1-core/src/reencode.rs:30-35 | A list of encodings can be recovered from its concatenation. |
| Equivalence.CodePrefixFree | crates/asn1-core/src/reencode.rs:33-35 | No encoding is a proper prefix of another. |
| Equivalence.SetOrderIsStandard | crates/asn1-core/src/reencode.rs:26-30 | The sorted child encodings ascend in the zero-padded order of X.690 section 11.6, where only equal encodings tie. |
| ByteOrder.PaddedIsLex | crates/asn1-core/src/reencode.rs:27-29 | On strings of which neither is a proper prefix of the other, lexicographic and zero-padded order agree. |
| ByteOrder.PaddedTiesPrefixes | crates/asn1-core/src/reencode.rs:27-29 | Without that condition the two orders differ, on a concrete pair. |
| ByteOrder.SortedUnique | crates/asn1-core/src/reencode.rs:28 | A sorted rearrangement is unique, so any sorting routine gives the same vector. |
| Sizes.DefiniteNeverGrows | crates/asn1-core/src/reencode.rs:68-81 | Without indefinite lengths re-encoding never grows a document, and keeps its size exactly when every length was shortest. |
| Sizes.BoundedGrowth | crates/asn1-core/src/reencode.rs:14-36 | At most eight octets are added per constructed node whenever the encoding fits in a vector, which it always does for a document below a fifth of the largest one. |
| Sizes.DerKeepsSize | crates/asn1-core/src/reencode.rs:1-3 | A DER-accepted document parses alike under BER and keeps its size when re-encoded. |
| Meaning.GatherInto | crates/asn1-core/src/tlv.rs:457-472 | Appends the leaf octets in document order. |
| Meaning.GatheredAreLeaves | crates/asn1-core/src/tlv.rs:457-472 | The gathered octets are those of the primitive nodes in document order. |
| Meaning.ValuesAreWhereNodesAre | crates/asn1-core/src/json.rs:65-73 | The decoded value has at each address what the tree has there: for a primitive node the reading of its own class, tag and octets, for a constructed one an array as long as its children, and nothing else. |
| Meaning.MeaningPreserved | crates/asn1-core/src/json.rs:65-73 | Decoding the re-encoded document gives the same value up to the order of arrays from universal SETs, exactly the same when there are none; leaf octets are conserved likewise. |
| Views.Walk | crates/asn1-core/src/tlvlist.rs:33-56 | Appends one row per node in document order: path, class, tag, label, lengths and value text. |
| Views.Flatten | crates/asn1-core/src/tlvlist.rs:27-31 | Rows from the root path `$`. |
| Views.Navigate | crates/asn1-core/src/tlvlist.rs:98-116 | The segment loop: empty segments skipped, leading digits taken, overflow and missing children refused. |
| Views.PathsLeadBack | crates/asn1-core/src/tlvlist.rs:27-116 | For every accepted document: as many rows as nodes; the columns of each row are those of its node, named one by one; its path navigates to that very node; and no two paths are equal. |
| Views.SloppyPath | crates/asn1-core/src/tlvlist.rs:98-116 | Paths are also read with white space around them, without the dollar sign, with empty segments, and with anything after a child number. |
| Views.BadSegment | crates/asn1-core/src/tlvlist.rs:104-113 | A segment that is not empty and does not begin with a digit is refused. |
| Views.CollectOids | crates/asn1-core/src/tlvlist.rs:74-87 | Appends one row per decodable OBJECT IDENTIFIER, in document order, with its registered name and path. |
| Views.InventoryIsSublist | crates/asn1-core/src/tlvlist.rs:68-87 | The OID inventory is exactly the in-order sub-list of the rows of decodable OBJECT IDENTIFIERs (universal class, tag 6). |
| Integers.DivideByTen | crates/asn1-core/src/value.rs:50-55 | One in-place pass leaves quotient and remainder of a division by ten; every cell stays an octet. |
| Integers.UnsignedBytesToDecimal | crates/asn1-core/src/value.rs:43-60 | Repeated division prints the decimal text of the unsigned value. |
| Integers.Negate | crates/asn1-core/src/value.rs:17-26 | Inverting and adding one with carry gives the magnitude of a negative number. |
| Integers.IntegerToDecimal | crates/asn1-core/src/value.rs:11-39 | Octets of any number are printed as the decimal text of their two's-complement value. |
| Integers.IntegerToI64 | crates/asn1-core/src/value.rs:63-73 | One to eight octets give exactly the two's-complement value, which fits; all others nothing. |
| Integers.RenderingIsCanonical | crates/asn1-core/src/value.rs:11-39 | Two integers print alike if and only if they denote the same number. |
| Integers.RenderingShape | crates/asn1-core/src/value.rs:30-38 | No leading zeros, a sign only on negative numbers, never "-0". |
| Integers.SignExtension | crates/asn1-core/src/value.rs:11-39 | A redundant leading sign octet does not change the number, and so not the text. |
| Oid.CollectArcs | crates/asn1-core/src/oid.rs:20-38 | The accumulator loop, in 128-bit numbers whose top bits are lost by the shift; the checked addition never fails. |
| Oid.DecodeOid | crates/asn1-core/src/oid.rs:12-53 | Content octets to dotted text. |
| Oid.EncodeOid | crates/asn1-core/src/oid.rs:93-114 | Dotted text to content octets; the 19-octet stack always suffices. |
| Oid.SubidentifiersAreNumerals | crates/asn1-core/src/oid.rs:20-38 | Contents that can be cut into subidentifiers are exactly the lists of minimal base-128 numerals. |
| Oid.OctetsRoundTrip | crates/asn1-core/src/oid.rs:12-130 | Decoding then encoding returns the same octets if and only if every subidentifier is below 2^128. |
| Oid.TextRoundTrip | crates/asn1-core/src/oid.rs:93-130 | Encoding then decoding returns the same arcs if and only if the joint first subidentifier is below 2^128. |
| Oid.DecodesArcs | crates/asn1-core/src/oid.rs:39-53 | 40 times the first arc plus the second is the first subidentifier, in the ranges of X.690 section 8.19.4; the others follow. |
| Oid.EncodesArcs | crates/asn1-core/src/oid.rs:93-114 | Which arcs are refused, and what octets the others have. |
| Oid.DecodesNumerals | crates/asn1-core/src/oid.rs:12-38 | A content is decoded if and only if it is a non-empty list of minimal numerals. |
| OidExamples.StandardExample | crates/asn1-core/src/oid.rs:12-130 | 2.999.3 is 88 37 03, both ways. |
| OidExamples.SignedDataOid | crates/asn1-core/src/security/cms.rs:22 | 1.2.840.113549.1.7.2 is 2a 86 48 86 f7 0d 01 07 02. |
| Oid.LongSubidentifierIsLost | crates/asn1-core/src/oid.rs:20-38 | A content that does not return: the subidentifier 2^128 is read as `0.0`. |
| Oid.JointArcWraps | crates/asn1-core/src/oid.rs:108 | A text that does not return: `2.` and 2^128 - 1 comes back as `1.39`. |
| Civil.DateRoundTrip | crates/asn1-core/src/value.rs:228-264 | The date of the day number of a real date is that date. |
| Civil.DayRoundTrip | crates/asn1-core/src/value.rs:228-264 | Every day number is that of a real date. |
| Civil.CountsDays | crates/asn1-core/src/value.rs:228-235 | Day numbers go up by one from each real date to the next of the calendar, from zero at 1970-01-01. |
| Civil.TruncIsFloor | crates/asn1-core/src/value.rs:230-255 | The corrections by 399 and 146096 turn truncating division into rounding down. |
| Civil.YearRecovered | crates/asn1-core/src/value.rs:256-257 | The divisions by 1460, 36524 and 146096 recover the year of the era. |
| Times.FieldsDenoteInstant | crates/asn1-core/src/value.rs:239-252 | The fields derived from an instant are a real date and time of day denoting it to the second. |
| Times.DerivedFieldsAreParsed | crates/asn1-core/src/value.rs:168-183 | The fields re-derived in the fractional path are the parsed ones if and only if the date is real, the second is below 60 and there is no offset. |
| Times.IsoDenotesInstant | crates/asn1-core/src/value.rs:131-224 | For every accepted GeneralizedTime text, the ISO text shows a real date and time that UTC clocks show at the returned instant if and only if a nonzero fraction was read; or there is no offset, the second is below 60 and the date is real. |
| Times.LocalTimeShownAsUtc | crates/asn1-core/src/value.rs:220-224 | `20230915120000+0500` is shown as noon UTC, which is not the returned instant. |
| Times.UnrealDateAccepted | crates/asn1-core/src/value.rs:168-224 | 31 February is accepted: its ISO text denotes no instant, and with half a second it shows 3 March. |
| Times.LeapSecondAccepted | crates/asn1-core/src/value.rs:214-224 | Second 60 is accepted; the ISO text is not the returned instant. |
| Times.FieldsAccepted | crates/asn1-core/src/value.rs:131-203 | Which texts can be read: ten digits, then minutes and seconds where a first digit asks for a second one, and a zone. |
| Times.AcceptedInRange | crates/asn1-core/src/value.rs:202-224 | Of these exactly those with month, day, hour, minute and second in range are accepted; no 64-bit overflow occurs. |
| Times.FractionTruncates | crates/asn1-core/src/value.rs:158-165 | For any number of digits, the microseconds are the fraction of a second rounded down. |
| Times.ParseFraction | crates/asn1-core/src/value.rs:151-166 | The fraction loops read the mark with all digits after it and give the fraction rounded down to millionths. |
| Times.ParseGeneralized | crates/asn1-core/src/value.rs:131-183 | The moving-position parser returns exactly `GeneralizedOf`. |
| Times.FieldsRead | crates/asn1-core/src/value.rs:131-167 | Any two-digit fields at any precision, with either decimal mark and any number of digits, in any zone, are read back as printed. |
| Times.GeneralizedRoundTrip | crates/asn1-core/src/value.rs:131-183 | Every real time of a four-digit year, in any of these shapes, is read back with its exact instant; the ISO fields are the printed ones or, with a fraction, those of the instant in UTC. |
| BitStrings.BitstringBits | crates/asn1-core/src/value.rs:333-345 | The two loops, with their inner exit, give the binary digits of all used bits. |
| BitStrings.BitTextReadsBack | crates/asn1-core/src/value.rs:333-345 | The text is defined if and only if there is data or no unused bit; it has eight digits per octet less the unused ones, and filled up with zeros gives back the octets, unused bits cleared. |
| BitStrings.UnusedBitsWithoutData | crates/asn1-core/src/value.rs:324-334 | The content octet 3 is accepted and its bits are not defined. |
| Ldap.Esc | crates/asn1-core/src/security/ldap.rs:81-94 | The escaping loop. |
| Ldap.EscapeIsQuoted | crates/asn1-core/src/security/ldap.rs:81-94 | Escaping is that of RFC 4515: a backslash and the two hexadecimal digits of the character number for NUL, parentheses, star and backslash. |
| Ldap.EscapeReadsBack | crates/asn1-core/src/security/ldap.rs:81-94 | Reading a backslash and two hexadecimal digits as the character of that number gives back every text. |
| Ldap.RenderSubstrings | crates/asn1-core/src/security/ldap.rs:140-179 | The pattern loop with its `first` flag. |
| Ldap.RenderingIsGroup | crates/asn1-core/src/security/ldap.rs:97-179 | For any tree at all the rendering is one balanced parenthesised group. |
| FilterLooks.RenderedAlike | crates/asn1-core/src/security/ldap.rs:97-179 | Whatever the attributes and substring components, two trees encoding filters are rendered alike if and only if their looks agree: the nesting, and in each assertion the segments between stars, attribute and operator being part of the first one; an extensible match shows nothing. |
| FilterLooks.RenderedAlikeByForm | crates/asn1-core/src/security/ldap.rs:97-179 | When the attribute descriptions are over letters, digits, `-`, `;` and `.`: alike if and only if nesting, attributes, operators and segments agree. |
| FilterLooks.RendersFilter | crates/asn1-core/src/security/ldap.rs:97-179 | On a tree that encodes a well-formed filter other than an extensible match, the rendering is that filter's text by RFC 4515 section 3. |
| FilterLooks.EachKind | crates/asn1-core/src/security/ldap.rs:97-137 | Tag number and text of each kind of filter. |
| FilterLooks.EachSubstring | crates/asn1-core/src/security/ldap.rs:140-179 | Tag numbers and text of initial, any and final substrings. |
| FilterLooks.NotRendered | crates/asn1-core/src/security/ldap.rs:97-143 | Exactly which trees are rendered as the placeholder: other classes, tags above 8, assertions of less than two parts. |
| FilterLooks.PrintUnique | crates/asn1-core/src/security/ldap.rs:97-179 | A text begins with at most one well-formed filter, which ends in one place. |
| FilterLooks.RenderingIsUnambiguous | crates/asn1-core/src/security/ldap.rs:97-179 | Trees encoding well-formed filters are rendered alike if and only if they encode the same filter. |
| FilterPatterns.EscapeInjective | crates/asn1-core/src/security/ldap.rs:81-94 | Escaping loses nothing. |
| FilterPatterns.WholePattern | crates/asn1-core/src/security/ldap.rs:140-179 | For any substring components the pattern is the escaped segments with stars between them. |
| FilterLooks.EmptyInitialLooksPresent | crates/asn1-core/src/security/ldap.rs:153-157 | A concrete substring filter with an empty initial component is rendered as presence. |
| FilterLooks.StrayAttributeLooksGreater | crates/asn1-core/src/security/ldap.rs:81-120 | The equality of `a>` with `x` is rendered as `(a>=x)`, like a comparison. |
| FilterLooks.ExtensibleLooksAlike | crates/asn1-core/src/security/ldap.rs:97-136 | Any two extensible matches are rendered alike. |
| Cms.CertIssuerSerial | crates/asn1-core/src/security/cms.rs:174-191 | Issuer encoding and serial text of a certificate, with the optional version skipped. |
| Cms.CollectCerts | crates/asn1-core/src/security/cms.rs:153-170 | One entry per embedded SEQUENCE certificate, in order. |
| Cms.ShredSigner | crates/asn1-core/src/security/cms.rs:193-228 | Version and identification part of a signer row. |
| Cms.CmsSigners | crates/asn1-core/src/security/cms.rs:116-145 | From the blob to the rows of all SignerInfo SEQUENCEs. |
| Cms.ComparisonIsSemantic | crates/asn1-core/src/security/cms.rs:216-220 | Comparing encodings and decimal texts is comparing trees, up to layout and SET order, and numbers. |
| Cms.SignerMatchIsSemantic | crates/asn1-core/src/security/cms.rs:204-221 | The digest is that of the first embedded certificate whose issuer equals the signer's up to length form and SET order and whose serial is the same number, or both are absent. |
| SignedBlobs.RowsOfWrittenBlob | crates/asn1-core/src/security/cms.rs:18-228 | For a message written out field by field (SignedData, certificates, signers, and in each certificate the optional version, serial number, algorithm and issuer): one row per signer with its version and identifier, matched to the first certificate of that issuer and number. |
| SignedBlobs.CertFields | crates/asn1-core/src/security/cms.rs:174-191 | The issuer and the serial number are taken from these two fields of a certificate. |
| SignedBlobs.OnlySequences | crates/asn1-core/src/security/cms.rs:153-170 | Certificates and signers that are no SEQUENCE are skipped. |
| Cms.LengthFormsDoNotMatter | crates/asn1-core/src/security/cms.rs:116-228 | Blobs that differ in length forms only have the same signer rows. |
| SignerOrder.SignersSurviveReordering | crates/asn1-core/src/security/cms.rs:18-228 | A blob with signers keeps all signer rows, with the matched certificates, under every change of layout and SET order if and only if its root is no universal SET and, should its SignedData be one, any choice of a SET for the signers and of a `[0]` for the certificates gives the same rows. |
| SignerOrder.EquivSigners | crates/asn1-core/src/security/cms.rs:18-228 | Under that condition blobs equal up to layout and SET order have the same signer rows, rearranged. |
| SignerOrder.SetRootLosesSigner | crates/asn1-core/src/security/cms.rs:18-36 | Two SETs that differ in the order of children only: one has a signer row, the other none. |
| SignerOrder.ReencodingKeepsSigners | crates/asn1-core/src/security/cms.rs:18-228 | Under that condition re-encoding a blob keeps all its signer rows and matches. |

## Left out

- The `asn1-worker` crate, SQL tests, packaging: plumbing around the codec.
- Error messages: only the kind and the offset of a failure are modelled.
- The SNMP, Kerberos, OCSP and PKCS decoders, `dump` and `pem`: field picking, name tables and formatting.
- `primitive_value` of json.rs and `to_json_verbose`: base64 and character decoding are external; primitive values are a parameter.
- `decode_relative_oid` and the OID registry: the first repeats the loop of `decode_oid`, the second is a finite table.
- `parse_utctime`, `decode_string` and `decode_bool`: shorter forms of what is modelled, and conversions of the standard library.
- The digits of ISO texts: `Times.Iso` holds the numbers that are printed.
- LDAP message rows and operations other than filters: field picking over accessors.
- Cms.ShredSigner: the row has no issuer text, algorithms, signed attributes, signature and content type; they are picked by position and named by tables.
- Cms.CmsSigners: the same fields are missing in each row.
- `cms_certs` and `cms_content`: the first is the list of encodings of `Cms.EmbeddedCerts`.
- CER restrictions and the DER rules on values (constructed strings, BOOLEAN and INTEGER contents, tag order of SET components): the source does not enforce them.
