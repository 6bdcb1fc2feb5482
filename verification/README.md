# Verification of the yadi HDLC and COSEM client

This project models the DLMS/COSEM client library *yadi* in Dafny and proves what its code guarantees: the HDLC frame
codec with its check sequence, the connection layer with its negotiation of information field lengths, the client that
connects, gets and disconnects over a serial line, and the COSEM encoders it sends.

`dafny verify dfyconfig.toml` checks the whole project.

## Structure

| file | what it holds |
|---|---|
| `Octets.dfy`, `Results.dfy` | octets and the casts the code performs; results in place of exceptions |
| `Fcs.dfy` | the check sequence: the table-driven loop of the code against a serial shift register (Appendix C.2 of RFC 1662) |
| `Order.dfy` | the order of x modulo the generator polynomial: exactly 32767 |
| `ErrorDetection.dfy` | linearity of the register; which error patterns on bit streams it notices |
| `HdlcFrame.dfy` | serializer, validator and parser of frames, as written, with the intended header check and two-octet addresses beside the written ones |
| `Mirror.dfy`, `Server.dfy` | the other end of the link: the frame layout of section H.4 of ISO/IEC 13239 with extended addresses (section 4.7.1), a server that writes responses and a server that reads requests |
| `Exactness.dfy` | the intended parser accepts conformant responses and nothing else |
| `AsWritten.dfy` | how far the written header check departs from that, and exactly what the code accepts |
| `Integrity.dfy` | which changes to an accepted frame the validator notices |
| `Hdlc.dfy` | the connection layer |
| `ParameterLists.dfy`, `Negotiation.dfy` | parameter lists of any content and the walk meant for them; what the walk of the code comes to |
| `InStep.dfy`, `WindowedOffers.dfy` | exactly which lists the walk of the code falls in with, and what it hears of them; limits with the window parameters behind them |
| `Outcomes.dfy` | the outcome of every response to SNRM, and of the acknowledgements that carry those lists |
| `SequenceNumbers.dfy` | N(R) and N(S) when two stations keep answering each other |
| `DataType.dfy` | the self-delimiting length code and strings packed with it |
| `Cosem.dfy`, `Aarq.dfy`, `LogicalNames.dfy` | requests and responses, the association request as nested BER, dotted logical names |
| `Client.dfy`, `Runs.dfy` | the client over a serial line, and properties of all its runs and of whole transactions |
| `Vectors.dfy` | whole frames and requests in literal octets: those that the repository's own tests expect, and the association request for all parameters |

The serializer writes client-to-server frames and the parser reads server-to-client frames, so neither undoes the other.
Their inverses are the two servers of `Mirror` and `Server`, which share the layout `Mirror.Frame`.

Code that works step by step is modelled by methods and classes; each is proved equal to a specification function, and
the properties are proved about those functions. Client operations are steps of a state that holds both negotiated
limits, the answers still to come and all frames written; answers are arbitrary octet strings.

## Where the code departs from its intent

The model keeps the code as written. Where that breaks an intended property, a lemma says exactly when.

- **Header check** (src/hdlc_frame.cpp:173-174). The code takes the control octet for the high octet of the header check
  and compares with `!=`. A conformant response with an information field is therefore rejected exactly when its control
  octet equals the high octet of its header check (`Mirror.ResponseRoundTripAsWritten`; `Mirror.LostResponse` is a
  family of such frames), and nearly every wrong header check is accepted (`AsWritten.AnyHeaderCheck`). The verdict is
  the intended one under the condition of `AsWritten.HeaderChecksAgree`, and `AsWritten.ParsesAsWrittenIff` says exactly
  what is accepted, down to I frames whose frame check completes their LLC octets. With the intended check the parser accepts
  exactly the conformant responses, of either address width (`Exactness.ParsesIff`).
- **Two-octet addresses** (src/hdlc_frame.cpp:28). The test `offset == 5` never holds, so an address (L, P) is read as
  logical 0 and physical 128L + P, rightly iff L is 0 (`Mirror.TwoOctetAddress`, `Mirror.ResponseRoundTripAsWritten`;
  `Mirror.ShortAddressMisread` for accepted frames from every such address).
- **Empty I frames** (src/hdlc_frame.cpp:68-74 against 96-100). The LLC octets are written but not counted. The length
  field is exact for all other frames up to 4095 and for no longer ones (`Server.LengthExact`).
- **Truncated final check** (src/hdlc_frame.cpp:105). The size argument of the check has sixteen bits. The final check
  depends on the payload alone, whatever header stands before it, iff the remainder of the size is not 3 to 9
  (`Server.HeaderIndependence`).
- **Negotiation** (src/hdlc.cpp:122-142). The walk starts on the group header, values are fetched from the frame instead
  of the information field, and values of four or more octets are not skipped.
  - Long values alone: the code keeps in step iff no value has four or more octets (`ParameterLists.InStepIff`,
    `ParameterLists.PrefixesIff`; `Negotiation.LongValueMisread` is a list it misreads). `ParameterLists.OutOfStepAlike`
    is a list on which it falls out of step and still happens to find the same items.
  - The start: the first id is taken for a length, so whether the code ever comes into step depends on the first
    parameter. From the second one on it reads the items where they lie iff the walk falls in behind the first and no
    later value has four or more octets (`InStep.InStepFromSecondIff`). With an id other than 1, 2 and 3, a first value
    of one octet must not be 1, 2 or 3, and one of two octets must open with 1 (`InStep.FallsInShort`).
  - The values: of a list it falls in with, the code finds the items of `InStep.WalkFallsIn`, their values read from the
    frame. So with both limits on offer it takes no transmit limit, and takes for the receive limit octets of the frame;
    that is as intended under the condition of `Outcomes.UsualOfferOutcome`, with the window parameters behind the limits
    or without.
  - Limits written as the client writes its own, in step or not: `Negotiation.OfferHeard` and
    `WindowedOffers.WindowedOfferHeard` give what the code hears in closed form, without the window parameters and with
    them. Without them, a single limit is always ignored.
  - `Outcomes` states all this of the operation itself, for acknowledgements that carry such lists
    (`Outcomes.UsualInstance` is one with the windows), and its outcome for every buffer (`Outcomes.OutcomeOfEvery`).
  - The code requires the octets `80 81` in front of a list; acknowledgements that open otherwise are refused
    (`Negotiation.AcceptedResponses`).
- **Sequence numbers** (src/hdlc.cpp:39-40). The codec advances N(R) and N(S) as it should
  (`SequenceNumbers.Advance`), but the client pins them: all its I frames say N(R) = 2 and N(S) = 0
  (`SequenceNumbers.PinnedNumbers`).
- **Lengths** (src/data_type.cpp:12). The size 0x80 is written in short form, which section 8.1.3 of ITU-T X.690 reads
  as an indefinite length; every other size is a definite length of that section (`Aarq.SizeCodeIsBer`). The code remains
  decodable, prefix-free and shortest in its own format.
- **Association request** (src/cosem.cpp:248). One octet is reserved for the outer length. It is a well-formed short-form
  length iff the challenge has at most 66 octets beside a title, 78 without (`Aarq.OuterLevel`), and it holds the right
  number up to 194 and 206 (`Aarq.PatchExact`). The fields themselves are well formed up to 125 octets
  (`Aarq.FieldLevel`) and what they hold up to 127 (`Aarq.NestedLevel`). A calling AP title is tagged 0x06 as in the code.

## Model

| member | source | states |
|---|---|---|
| `Fcs.CheckSequenceCalc` | src/hdlc_frame.cpp:180-224 | the table-driven loop returns the complemented register of a bit-serial shift register with polynomial 0x8408 started at 0xFFFF |
| `Fcs.TableIsFold` | src/hdlc_frame.cpp:182-215 | every one of the 256 table entries is the closed form of eight feedback shifts |
| `Fcs.TableIsSerial` | src/hdlc_frame.cpp:217-221 | from any state and over any octets the table drives the register as single-bit shifts do |
| `Fcs.FeedWord` | src/hdlc_frame.cpp:219-221 | feeding bits one at a time equals loading the word first and turning |
| `Fcs.FeedAppend` | src/hdlc_frame.cpp:219-221 | the register composes over concatenation |
| `Fcs.FeedIsSteps` | src/hdlc_frame.cpp:219-221 | the bit-serial register advances by whole octets |
| `Fcs.ResidueIffSealed` | src/hdlc_frame.cpp:140-143 | two octets behind a string are its check sequence iff the register over all of it is 0xF0B8 |
| `Fcs.SealedResidue` | src/hdlc_frame.cpp:92-94 | a string followed by its own check sequence always leaves 0xF0B8 |
| `Fcs.CheckBehindHeader` | src/hdlc_frame.cpp:104-107 | behind anything and its own check, the check sequence is a function of what follows |
| `Order.Generator` | src/hdlc_frame.cpp:219-221 | the register satisfies the generator equation x^16 = x^12 + x^5 + 1 in every state |
| `Order.TurnInjective` | src/hdlc_frame.cpp:219-221 | the shift of the register loses no state |
| `Order.ProductSpin` | src/hdlc_frame.cpp:219-221 | shifting k times is multiplication by x^k modulo the generator |
| `Order.NoShorterCycle` | src/hdlc_frame.cpp:219-221 | no fewer than 32767 shifts bring x back, so x has order exactly 32767 |
| `Order.LoneBit` | src/hdlc_frame.cpp:219-221 | a single bit in the register does not recur within 32766 shifts |
| `ErrorDetection.RegisterLinear` | src/hdlc_frame.cpp:219-221 | the register is linear over GF(2) in state and data together |
| `ErrorDetection.BurstChangesRegister` | src/hdlc_frame.cpp:219-221 | a nonzero error within sixteen consecutive bits always changes the register, at any length and offset |
| `ErrorDetection.OddRegister` | src/hdlc_frame.cpp:219-221 | the register tracks the parity of the data |
| `ErrorDetection.FewBitsChangeRegister` | src/hdlc_frame.cpp:219-221 | one, two or three wrong bits within 32767 always change the register |
| `ErrorDetection.GeneratorUnnoticed` | src/hdlc_frame.cpp:219-221 | the bounds are tight: an error of four bits spanning seventeen goes unnoticed |
| `ErrorDetection.DistanceFour` | src/hdlc_frame.cpp:219-221 | different octet strings of equal length with equal registers differ in at least four bits |
| `ErrorDetection.NoBurst` | src/hdlc_frame.cpp:219-221 | octet strings with equal registers never differ by a burst of sixteen bits |
| `ErrorDetection.EvenDistance` | src/hdlc_frame.cpp:219-221 | octet strings with equal registers differ in an even number of bits |
| `Integrity.FramedResidue` | src/hdlc_frame.cpp:136-143 | whatever the validator accepts leaves the residue between its flags |
| `Integrity.FramesFarApart` | src/hdlc_frame.cpp:136-143 | two buffers of equal size that pass the frame check differ in at least four bits or not at all |
| `Integrity.FramesEvenApart` | src/hdlc_frame.cpp:136-143 | a change of any odd number of bits is noticed |
| `Integrity.BurstNoticed` | src/hdlc_frame.cpp:136-143 | a change within sixteen consecutive bits, aligned or not, is noticed |
| `Integrity.AdjacentOctetsRejected` | src/hdlc_frame.cpp:115-178 | changing one or two adjacent octets of an accepted buffer makes the validator reject it |
| `HdlcFrame.FrameSize` | src/hdlc_frame.cpp:66-74 | the length computed beforehand, with the wrap-around of its sixteen bits |
| `HdlcFrame.WriteHeader` | src/hdlc_frame.cpp:76-89 | the octets pushed are flag, format, addresses and control octet of the header specification |
| `HdlcFrame.AppendCheck` | src/hdlc_frame.cpp:92-94 | a check sequence over everything behind the flag is appended, low octet first |
| `HdlcFrame.HdlcFrameSerialize` | src/hdlc_frame.cpp:62-113 | the serializer writes exactly the specified frame, for every command, address and payload; `Server.EveryFrame`, `Server.RequestRoundTrip` and `Server.FinalCheck` say what that is |
| `HdlcFrame.CheckFrame` | src/hdlc_frame.cpp:115-178 | the validator decides the declarative frame conditions and reads only within the buffer, whatever the octets |
| `HdlcFrame.AddressEnds` | src/hdlc_frame.cpp:149-155 | the address octets counted are those without extension bit, and the next one has it |
| `HdlcFrame.FramedInformation` | src/hdlc_frame.cpp:165-170 | where the information field of an accepted buffer lies; without one the closing flag stands there |
| `HdlcFrame.ReadAddress` | src/hdlc_frame.cpp:18-26 | the loop reads two or four octets to the first extension bit and accumulates them big-endian |
| `HdlcFrame.ControlFields` | src/hdlc_frame.cpp:37-44 | command and numbers read from a control octet, numbers only for the I command |
| `HdlcFrame.ReadPayload` | src/hdlc_frame.cpp:46-57 | the payload returned is the information field without LLC octets, or the frame is refused |
| `HdlcFrame.HdlcFrameParse` | src/hdlc_frame.cpp:11-60 | for every octet vector the parser refuses or returns the decoded fields, reading only within the buffer |
| `Mirror.FormatRoundTrip` | src/hdlc_frame.cpp:77-78 | the format octets carry type 3 and the low twelve bits of any length, read back exactly |
| `Mirror.ControlRoundTrip` | src/hdlc_frame.cpp:37-44 | a response's control octet gives back command, N(R) and N(S) |
| `Mirror.AddressOctetsForm` | src/hdlc_frame.cpp:79-82 | the extension bit is set on the last address octet only, in both widths |
| `Mirror.AddressRoundTrip` | src/hdlc_frame.cpp:33-34 | joining the four octets of any two addresses gives their low fourteen bits |
| `Mirror.AddressSplitJoin` | src/hdlc_frame.cpp:79-82 | any four address octets in form are the split of the addresses they join to |
| `Mirror.ShortRoundTrip` | src/hdlc_frame.cpp:28-35 | two 7-bit addresses over two octets: the 7+7 join recovers them, the join the code performs gives 0 and 128L + P |
| `Mirror.ShortSplitJoin` | src/hdlc_frame.cpp:28-31 | any two address octets in form are the split of their 7+7 join |
| `Mirror.TwoOctetAddress` | src/hdlc_frame.cpp:23-35 | a two-octet address (L, P) is read as logical 0 and physical 128L + P, which is right iff L is 0 |
| `Mirror.ResponseFramed` | src/hdlc_frame.cpp:115-178 | every conformant frame with a two- or four-octet address passes the frame conditions, its parts found where they were put |
| `Mirror.SaidDecodes` | src/hdlc_frame.cpp:17-59 | any framed buffer whose parts are those of a response decodes to that response, two-octet addresses misread as stated |
| `Mirror.ResponseRoundTrip` | src/hdlc_frame.cpp:11-60 | the intended parser undoes the server's encoder on every conformant response of either address width |
| `Mirror.ResponseRoundTripAsWritten` | src/hdlc_frame.cpp:11-60 | as written it does so, but for misread two-octet addresses, unless there is an information field and the control octet equals the high octet of the header check |
| `Mirror.ShortAddressMisread` | src/hdlc_frame.cpp:28-35 | from every pair of 7-bit addresses an acknowledgement is accepted and misread as logical 0 and physical 128L + P |
| `Mirror.LostResponse` | src/hdlc_frame.cpp:172-175 | a concrete header with which every conformant response of twelve payload octets is refused |
| `Mirror.ParsedAddress` | src/hdlc_frame.cpp:17-35 | whatever parses has a well-formed address of two or four octets within a buffer of at most 4097 |
| `Mirror.ParsedPayload` | src/hdlc_frame.cpp:46-57 | whatever parses, the payload is the information field, for I frames behind present LLC octets, empty if shorter |
| `Exactness.FormatUnique` | src/hdlc_frame.cpp:132-138 | accepted format octets are those the encoder writes for the length they say |
| `Exactness.ControlUnique` | src/hdlc_frame.cpp:37-44 | a control octet with the poll/final bit is the one written for what is read from it |
| `Exactness.FrameUnique` | src/hdlc_frame.cpp:115-178 | a buffer passing both intended checks is the standard layout around its own parts, with two or four address octets |
| `Exactness.LlcInside` | src/hdlc_frame.cpp:48 | with right checks the LLC octets lie inside the information field; the frame check never completes them |
| `Exactness.ParsedIsConformant` | src/hdlc_frame.cpp:11-60 | whatever the intended parser reads is conformant, and encoding it gives the buffer back |
| `Exactness.ParsesIff` | src/hdlc_frame.cpp:11-60 | for every buffer, the intended parser returns r iff the buffer is the conformant encoding of r in one of the two widths |
| `AsWritten.HeaderChecksAgree` | src/hdlc_frame.cpp:172-175 | exactly which received octets make the written header check give the intended verdict |
| `AsWritten.AnyHeaderCheck` | src/hdlc_frame.cpp:172-175 | for either address width and any two octets in place of the header check, the verdicts of the written and of the intended parser |
| `AsWritten.CheckedUnique` | src/hdlc_frame.cpp:115-178 | every framed buffer with an information field is the layout around its own parts, with some two octets for the header check |
| `AsWritten.ParsesAsWrittenIff` | src/hdlc_frame.cpp:11-60 | for every buffer, the code returns f iff the buffer is a conformant response without information, or a frame passing the written test that carries a payload, f being the response as misread; every other buffer gives one and the same error |
| `Server.SerializeIsFrame` | src/hdlc_frame.cpp:62-113 | every sendable frame is serialized in the standard layout |
| `Server.EveryFrame` | src/hdlc_frame.cpp:62-113 | every frame of any length, sendable or not: flags, type, low twelve bits of the length, addresses, command and numbers read back, a right header check, and the LLC octets E6 E6 00 of an I frame in front of its payload |
| `Server.SendableWellFormed` | src/hdlc_frame.cpp:92-108 | header check and frame check sit where a server looks for them, and match |
| `Server.RequestRoundTrip` | src/hdlc_frame.cpp:62-113 | a server reads back every field of every sendable frame, addresses cut to their widths and N(R) one past the last N(S) |
| `Server.LengthExact` | src/hdlc_frame.cpp:66-78 | the length field is the size without flags iff the frame is sendable; for an empty I frame it is three short |
| `Server.AcceptedIffSendable` | src/hdlc_frame.cpp:62-113 | a server accepts a serialized frame iff it is not an empty I frame and its length fits twelve bits |
| `Server.NotItsOwnFrame` | src/hdlc_frame.cpp:79-145 | the parser refuses everything the serializer writes |
| `Server.FinalCheck` | src/hdlc_frame.cpp:104-108 | every frame with payload, of any length, ends with the check of what follows the header, or of a truncated header where the 16-bit size leaves fewer than ten octets |
| `Server.HeaderIndependence` | src/hdlc_frame.cpp:92-108 | frames of the same kind and payload end alike, whatever their addresses, numbers and length, iff the octets checked are not 3 to 9 in number |
| `Server.HeaderShows` | src/hdlc_frame.cpp:104-107 | with 3 to 9 octets checked, flipping one address bit of any frame changes its ending |
| `Hdlc.HdlcContext.constructor` | include/yadi/hdlc.h:46-52 | a new context holds the default limits 128 |
| `Hdlc.GetFrame` | src/hdlc.cpp:32-43 | every frame of the client carries the configured addresses, the last N(S) 1 and N(R) base 0 |
| `Hdlc.SerializeSnrm` | src/hdlc.cpp:51-80 | SNRM is sent with a parameter for each limit that is not the default |
| `Hdlc.SerializeDisc` | src/hdlc.cpp:82-85 | DISC is sent without information; its octets are those of `Vectors.DiscVector` and `Vectors.ClientControls` |
| `Hdlc.SerializeData` | src/hdlc.cpp:87-90 | data travel in an I frame |
| `Hdlc.ParseData` | src/hdlc.cpp:92-96 | the payload of whatever frame parses, else the parser's refusal |
| `Hdlc.ParseDiscResponse` | src/hdlc.cpp:98-101 | true iff the frame that parses is an acknowledgement |
| `Hdlc.ParseSnrmResponse` | src/hdlc.cpp:103-145 | a refused or unaccepted answer leaves the context unchanged, an accepted one sets both limits to the outcome, which `Outcomes.OutcomeOfEvery` gives for every buffer |
| `Hdlc.Negotiate` | src/hdlc.cpp:119-142 | the outer loop ends and leaves each limit determined by the last item of its id |
| `Hdlc.FetchValue` | src/hdlc.cpp:127-132 | the inner loop reads at most three octets, within both buffers, big-endian |
| `Negotiation.LastValueIsLast` | src/hdlc.cpp:134-141 | the value used for an id is the one at its last occurrence, and none iff it never occurs |
| `Negotiation.LimitIsFold` | src/hdlc.cpp:119-142 | a limit is the proposed one if its id never occurs, else the minimum of proposal and low sixteen bits of its last value |
| `Negotiation.NegotiatedWithin` | src/hdlc.cpp:119-142 | no negotiated limit exceeds the proposed one |
| `Negotiation.ItemsConsume` | src/hdlc.cpp:122-132 | each item takes two to five octets, so the walk ends |
| `Negotiation.SnrmRoundTrip` | src/hdlc.cpp:51-80 | for all pairs of limits, walking the SNRM parameters gives the pair back |
| `Negotiation.SnrmInjective` | src/hdlc.cpp:51-80 | different pairs of limits are proposed by different octets |
| `Negotiation.SnrmListed` | src/hdlc.cpp:51-80 | the SNRM list is the encoding of parameters 5 and 6 with values of one octet below 128 and two above, and of neither at 128 |
| `Negotiation.SnrmReachesServer` | src/hdlc.cpp:51-80 | the server that reads the SNRM frame learns the proposed pair |
| `ParameterLists.MeantRoundTrip` | src/hdlc.cpp:122-132 | the intended walk reads back every list of ids with values of any length |
| `ParameterLists.InStepIff` | src/hdlc.cpp:129 | on every list the code reads the items where they lie iff no value has four or more octets, and then reads them all |
| `ParameterLists.PrefixesIff` | src/hdlc.cpp:129 | it reads the items of a list and of all its beginnings exactly iff no value has four or more octets |
| `ParameterLists.OutOfStepAlike` | src/hdlc.cpp:129 | a list on which the code falls out of step and yet finds the same items |
| `Negotiation.LongValueMisread` | src/hdlc.cpp:129 | a limit of 64 written in four octets is heard as 0 |
| `Negotiation.HearHeader` | src/hdlc.cpp:122-132 | whatever the list, the group header goes unheard, the group length is taken for an id, and the first id for the length by which a value is fetched |
| `Negotiation.IntendedIsMinimum` | src/hdlc.cpp:134-141 | for every list, the intended limits are the minimum of the proposal and the last value of each id |
| `InStep.FallsInShort` | src/hdlc.cpp:122-132 | which first values of one or two octets bring the walk into step, for every id but 1, 2 and 3 |
| `InStep.InStepFromSecondIff` | src/hdlc.cpp:122-132 | for every list, from the second parameter on the code reads the items where they lie iff it falls in behind the first and no later value has four or more octets |
| `InStep.WalkFallsIn` | src/hdlc.cpp:122-132 | for every list it falls in with and every frame, the items it finds: the header's, the strays in the first parameter, and the short parameters after it with values from the frame |
| `InStep.WindowsUnheard` | src/hdlc.cpp:122-132 | window parameters of four octets at the end of a list change nothing, though the walk falls out of step in them |
| `InStep.FallenInIntended` | src/hdlc.cpp:122-142 | for such lists, with the window parameters behind or not, the negotiated limits, and when they are the intended ones, from the parameters and the octets of the frame |
| `InStep.UsualOfferIntended` | src/hdlc.cpp:122-142 | both limits and further short parameters: no transmit limit is taken over and the receive limit is read from the frame, which is as intended iff those octets and silence cap the proposals as the offer does |
| `WindowedOffers.WindowedOfferHeard` | src/hdlc.cpp:122-132 | for any limits encoded as the client encodes its own, any window sizes behind them and every frame, the two values the walk ends up with |
| `WindowedOffers.WindowedOfferIntended` | src/hdlc.cpp:122-142 | on such a list the limits negotiated, which are the intended ones iff each value heard caps the proposal as the offered limit does |
| `Outcomes.LowOfValue` | src/hdlc.cpp:129-138 | the cast to sixteen bits keeps the last two octets of a value |
| `Outcomes.OutcomeOfEvery` | src/hdlc.cpp:103-145 | for every buffer: one that does not parse is an error, one that is no acknowledgement opening with 80 81 changes nothing, and one that is sets each limit by the last item of its id in a list of any length |
| `Outcomes.AcknowledgedOutcome` | src/hdlc.cpp:103-145 | for every conformant acknowledgement that is not lost, the limits come from walking the payload sent with values fetched from the frame around it |
| `Outcomes.AcknowledgementOctets` | src/hdlc.cpp:130 | what stands in that frame where values are fetched: control octet 0x73, header check and payload, or with a two-octet address the end of the header check and the payload |
| `Outcomes.FallenInOutcome` | src/hdlc.cpp:103-145 | the operation on a conformant acknowledgement of any list the walk falls in with: the limits set, and exactly when they are the intended ones |
| `Outcomes.UsualOfferOutcome` | src/hdlc.cpp:103-145 | the operation on a conformant acknowledgement of both limits and further parameters: the transmit limit stays, the receive limit comes from two octets of the frame, and exactly when that is as intended |
| `Outcomes.WindowedOfferOutcome` | src/hdlc.cpp:103-145 | the operation on a conformant acknowledgement of any two limits with the windows behind them: the limits set, and exactly when they are the intended ones |
| `Outcomes.UsualInstance` | src/hdlc.cpp:122-142 | a concrete acknowledgement of 64 twice and both windows, after which the receive limit is at most 115 |
| `Negotiation.OfferHeard` | src/hdlc.cpp:122-132 | for every two limits encoded as the client encodes its own, and every frame around them, the two values the walk as written ends up with |
| `Negotiation.OfferIntended` | src/hdlc.cpp:122-142 | on such an offer the written negotiation comes to the intended minimum iff each value heard caps the proposal as the offered limit does |
| `Negotiation.SingleOfferIntended` | src/hdlc.cpp:122-142 | an offer of at most one limit changes nothing, which is right iff it does not lower the proposal |
| `Negotiation.AcknowledgedOffer` | src/hdlc.cpp:131 | the octets fetched from a conformant acknowledgement are the control octet and the header check, or with a two-octet address the header check and the list |
| `Negotiation.OneOctetOffers` | src/hdlc.cpp:122-142 | two one-octet limits from a four-octet address: the transmit limit is never taken over, the receive limit becomes that of the control octet or 0 |
| `Negotiation.OneOctetInstance` | src/hdlc.cpp:122-142 | a concrete acknowledgement offering 64 twice, of which the code takes 115 for the receive limit |
| `Negotiation.AcceptedResponses` | src/hdlc.cpp:103-117 | of the conformant responses exactly the acknowledgements opening with 80 81 and a third octet are accepted, lost frames apart |
| `Negotiation.AcceptedInstance` | src/hdlc.cpp:107-117 | a concrete acknowledgement that every client accepts |
| `SequenceNumbers.WireNumbers` | src/hdlc_frame.cpp:37-44 | the numbers a server reads from a serialized I frame, and those the parser reads from a server's I frame |
| `SequenceNumbers.Turn` | src/hdlc_frame.cpp:37-44 | when the client parses and serializes with what it parsed, in every turn of any exchange N(R) is one past the peer's last N(S), and N(S) is the peer's N(R) |
| `SequenceNumbers.Advance` | src/hdlc_frame.cpp:37-88 | over any number of turns client and server alternate and each one's N(S) advances by exactly one per turn, modulo 8 |
| `SequenceNumbers.PinnedNumbers` | src/hdlc.cpp:39-40 | the client's I frames always say N(R) = 2 and N(S) = 0, acknowledging only a frame numbered 1 |
| `DataType.WriteSize` | src/data_type.cpp:7-33 | only appends, exactly the code of the size, and refuses sizes beyond 32 bits without writing |
| `DataType.SizeRoundTrip` | src/data_type.cpp:7-33 | every size up to 2^32 - 1 is read back exactly in front of anything |
| `DataType.SizePrefixFree` | src/data_type.cpp:7-33 | no code is a prefix of another |
| `DataType.SizeShortest` | src/data_type.cpp:12-26 | nothing that reads as n is shorter than what is written for n |
| `DataType.SizeOrder` | src/data_type.cpp:7-33 | sizes compare as their codes do lexicographically |
| `DataType.FromBytes` | src/data_type.cpp:35-63 | the tags 0x09 and 0x0A give tag, size and content, which decode to the string packed, or an error beyond 32 bits of size; any other tag gives nothing |
| `DataType.StreamRoundTrip` | src/data_type.cpp:35-63 | any concatenation of packed strings decodes to exactly the list packed |
| `Aarq.SizeCodeIsBer` | src/data_type.cpp:12 | a value behind its size code is one definite-length value of X.690 iff its size is not 0x80, for which the walker finds none |
| `Cosem.SerializeInvokeIdAndCosemDescriptor` | src/cosem.cpp:514-521 | appends invoke id, class, logical name and index to the caller's buffer |
| `Cosem.SerializeGetRequest` | src/cosem.cpp:285-294 | the normal get request of the specification |
| `Cosem.SerializeSetRequest` | src/cosem.cpp:347-356 | the normal set request of the specification |
| `Cosem.SerializeActionRequest` | src/cosem.cpp:414-423 | the normal action request of the specification |
| `Cosem.ApduRoundTrip` | src/cosem.cpp:514-521 | a server recovers service, class, logical name, index and data of every request |
| `Cosem.ApduCanonical` | src/cosem.cpp:285-294 | what that server accepts is exactly what the client can write |
| `Cosem.ParseGetResponse` | src/cosem.cpp:469-484 | accepts or refuses for every octet vector, as `Cosem.GetResponseIff` says in octets |
| `Cosem.GetResponseIff` | src/cosem.cpp:469-484 | a response is returned iff the octets are C4 01, any invoke id, its result and its data; anything else is the one error |
| `Aarq.SerializeAarq` | src/cosem.cpp:143-251 | the pushes and the final patch give the outer value around all encoded fields, which `Vectors.AarqVector` spells out in octets |
| `Aarq.WriteHead` | src/cosem.cpp:151-166 | version and application context, by security context |
| `Aarq.WriteTitle` | src/cosem.cpp:173-180 | the calling title, where one is selected |
| `Aarq.WriteAuthentication` | src/cosem.cpp:186-214 | requirements, mechanism and secret or challenge, where authentication is selected; `Vectors.AarqVector` has each mechanism's octet |
| `Aarq.WriteUserInformation` | src/cosem.cpp:218-245 | the initiate request with its seven conformance bits |
| `Aarq.ContentLength` | src/cosem.cpp:248 | the size of the content from the parameters alone |
| `Aarq.ReadAllIff` | src/cosem.cpp:143-251 | a walker of definite-length BER recovers a list of values from one-octet lengths iff each value fits the short form |
| `Aarq.OuterLevel` | src/cosem.cpp:148-149 | the walker sees one value holding the content iff the challenge has at most 66 octets beside a title, 78 without |
| `Aarq.FieldLevel` | src/cosem.cpp:151-245 | the walker consumes the content exactly, as the list of fields, iff the challenge has at most 125 octets |
| `Aarq.NestedLevel` | src/cosem.cpp:158-245 | every constructed field holds exactly one value, consumed to its last octet, iff the challenge has at most 127 octets |
| `Aarq.TagsIncrease` | src/cosem.cpp:151-232 | context tags strictly increase, for all parameters |
| `Aarq.FieldsSelected` | src/cosem.cpp:173-214 | the optional fields present are exactly those the parameters select |
| `Aarq.PatchExact` | src/cosem.cpp:248 | the patched octet is the length of what follows iff the challenge has at most 194 octets beside a title, 206 without |
| `LogicalNames.GetLine` | src/logical_name.cpp:37 | one token up to the next dot is taken off, the rest splitting as before |
| `LogicalNames.FromString` | src/logical_name.cpp:33-45 | six tokens give their octets, any other number is refused |
| `LogicalNames.FromList` | src/logical_name.cpp:47-52 | six octets are taken, any other number is refused |
| `LogicalNames.SplitJoin` | src/logical_name.cpp:37-40 | splitting undoes joining any dot-free tokens of which the last is not empty |
| `LogicalNames.SplitJoinTrailingDot` | src/logical_name.cpp:37-40 | one dot behind the last token makes no difference |
| `LogicalNames.SplitCount` | src/logical_name.cpp:37-40 | the number of tokens, from the dots of the text alone |
| `LogicalNames.AcceptedIffSixTokens` | src/logical_name.cpp:41-43 | a text is accepted iff it has six tokens by that count, and otherwise refused with the one error |
| `LogicalNames.AtoiDecimal` | src/logical_name.cpp:38 | reading a printed number gives the number |
| `LogicalNames.PrintParse` | src/logical_name.cpp:33-45 | every six octets survive printing and parsing, with or without a dot at the end |
| `LogicalNames.ReadModulo` | src/logical_name.cpp:38 | two numbers name the same octet iff they agree modulo 256 |
| `LogicalNames.AtoiToken` | src/logical_name.cpp:38 | any blanks, a sign or none, any digits, anything else behind: the number is that of the digits, zeros in front or not, negative behind a minus, 0 without digits |
| `LogicalNames.EveryToken` | src/logical_name.cpp:38 | every text divides into such parts |
| `LogicalNames.LeadingZero` | src/logical_name.cpp:38 | zeros in front of digits change nothing |
| `LogicalNames.TokenReads` | src/logical_name.cpp:38 | the octet of a token is its number modulo 256, counted down from 256 behind a minus |
| `LogicalNames.NameReads` | src/logical_name.cpp:33-45 | each octet of any accepted text is the number of its token modulo 256 |
| `Client.CosemHdlcClient.constructor` | include/yadi/dlms.h:9-12 | a new client has a context of its own with the default limits |
| `Client.CosemHdlcClient.Connect` | include/yadi/dlms.h:14-21 | what connect writes, reads, negotiates and returns, as a step of the whole state |
| `Client.CosemHdlcClient.Disconnect` | include/yadi/dlms.h:23-26 | the same for disconnect |
| `Client.CosemHdlcClient.GetRequest` | include/yadi/dlms.h:33-36 | the same for a get request |
| `Runs.RunProperIff` | include/yadi/dlms.h:14-36 | in any interleaving of operations, whatever is read, every frame the run adds is well formed iff no operation that comes to write data has too much for a frame |
| `Runs.AlwaysProperIff` | include/yadi/dlms.h:14-36 | all frames of a run are well formed whatever answers come iff every challenge has at most 4017 octets (4029 without title) and all request data at most 4067 |
| `Runs.RunUnreadable` | include/yadi/dlms.h:14-36 | in any such run no frame written would be accepted by the client's own parser |
| `Runs.DataFrameProper` | src/hdlc.cpp:87-90 | data make a well-formed frame iff they have at most 4080 octets |
| `Runs.AarqFits` | src/cosem.cpp:143-251 | an association request fits a frame iff its challenge has at most 4017 octets beside a title, 4029 without |
| `Runs.GetFrameIff` | include/yadi/dlms.h:34 | the frame of a get request is readable iff it carries at most 4067 data octets |
| `Runs.RunLockstep` | include/yadi/dlms.h:14-36 | in any run one answer is consumed for every frame written |
| `Runs.LimitsStayWithin` | src/hdlc.cpp:119-142 | in any run, from the first accepted negotiation on, both limits stay at or below the parameters |
| `Runs.GetReachesServer` | include/yadi/dlms.h:33-36 | a server decoding the frame of a get request recovers class, logical name, index and data |
| `Runs.AssociationReachesServer` | include/yadi/dlms.h:19 | a server decoding the second frame of a connect recovers the association request |
| `Runs.GetReturnsIff` | include/yadi/dlms.h:33-36 | for every answer, get_request returns a response iff the parser reads a payload of C4 01, any invoke id, its result and its data; otherwise one error for frames and one for payloads |
| `Runs.GetReturnsResponse` | include/yadi/dlms.h:33-36 | get_request returns exactly the result and data of a conformant response of either address width, unless the header check as written loses its frame |
| `Runs.Transaction` | include/yadi/dlms.h:33-36 | against a server that answers with any function of the request, get_request returns that function of the request made |
| `Runs.ConnectDialogue` | include/yadi/dlms.h:14-21 | connect as a server sees it: SNRM with the proposed limits first, the association request iff they were accepted; a lost answer is an error, one that does not accept gives false, and then success iff a frame comes back |
| `Runs.DisconnectReturns` | include/yadi/dlms.h:23-26 | whatever comes back, disconnect returns whether the parser reads the command 0x63, or the error of frames |
| `Runs.DisconnectDialogue` | include/yadi/dlms.h:23-26 | disconnect as a server sees it: the command is 0x43, and true is returned iff the conformant answer has command 0x63, an error iff it is lost |
| `Vectors.SnrmVector` | test/test_hdlc.cpp:11 | the SNRM frame of the default parameters, both addresses and check included |
| `Vectors.DiscVector` | src/hdlc.cpp:82-85 | the DISC frame of the default parameters, control octet 0x53 and check included |
| `Vectors.GetFrameVector` | src/hdlc_frame.cpp:62-113 | the whole frame of a get request: header, both checks, LLC octets and request |
| `Vectors.ClientControls` | src/hdlc_frame.cpp:84-100 | for all parameters and data the control octets are 0x93, 0x53 and 0x50, and data follow E6 E6 00 |
| `Vectors.AarqVector` | src/cosem.cpp:143-251 | the association request in literal octets for each of the eight mechanisms and every security: context 01 or 03, the title where selected, the mechanism octet, the secret for LLS, the challenge verbatim for the high levels |
| `Vectors.GmacAarqVector` | include/yadi/cosem.h:39 | the request of a GMAC client with a challenge of eight octets in full, mechanism octet 05 |
| `Vectors.PublicAarqVector` | test/test_cosem.cpp:28-41 | the association request expected of a public client |
| `Vectors.LowLevelAarqVector` | test/test_cosem.cpp:10-26 | the association request expected with a low-level secret, for any secret |
| `Vectors.RequestVectors` | test/test_cosem.cpp:43-82 | the get, set and action requests expected for attribute 2 of 1.0.1.8.0.255, with and without data |

## Left out

- ParameterLists.InStepIff: speaks of where the items lie; that the items themselves agree is weaker for a single list, as `ParameterLists.OutOfStepAlike` shows, and is stated for a list with all its beginnings.
- InStep.FallenInIntended: speaks of lists the walk falls in with; of the others, closed forms are given for limits alone and for limits with window parameters, and otherwise only where the walk goes out of step.
- LogicalNames.AtoiToken: numbers are unbounded, while `atoi` leaves values beyond `int` undefined.
- Integrity.FramesFarApart: compares buffers of equal size; inserted or lost octets are outside what it states.
- Serial I/O: a read is the next of any given octet strings, a write appends to a trace; timeouts and partial reads are not modelled.
- Logging and the demo (demo/main.cpp): plumbing around the calls modelled here.
- Exceptions as C++ objects: a result datatype stands for them; the context is proved unchanged when one is thrown.
- Failing constructors of `LogicalName`, the pimpl and its iterators: methods that return a result stand for the constructors.
- `std::vector` allocation: buffers are sequences, or a class where the source passes them by reference.
- `Security::generate_challenger`: the challenge is a parameter, and `challenger_size` is its length; `process_challenger` is a stub in the source.
- `parse_aare`: it accepts everything, so connect rests on no association result.
- `set_request` and `authenticate` of the client, and the wrapper client: they call functions with no declaration or default; the encoders of their requests are modelled.
- `to_string` and `to_bytes` (src/data_type.cpp:65-103): neither undoes the packing, so decoders written for this model stand in their place.
- src/wrapper.cpp and src/emode.cpp: constant headers and frames, with no state or branching of interest.
- `server_address_len` of the parameters: no code reads it.
