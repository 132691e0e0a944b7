# dexdo core, modelled and proved in Dafny

`dexdo` is the client of a marketplace for streamed inference. This project models the part of it that
decides things: the deal state machine and its money, the text grammars that carry identities and
amounts, the two tree algorithms over JSON, and the scanner its order guards read source text with.
Every statement below is for all inputs, all runs or all reachable states.

| part | modules | what is proved |
|---|---|---|
| deal and settlement | `Machine`, `MachineRuns`, `Settle`, `ClaimLimit`, `DealGas` | the claim pipeline over every run, one settlement per deal, conservation of the bond, fee = rebate + burn, limits over sequences of claims, sufficiency of the gas reserve |
| amounts and lots | `ShellAmount`, `SellPlan` | printing and parsing undo each other over all of `u128`; the greedy cut is exact, minimal and the only one |
| grammars | `ModelId`, `OracleBounds`, `Addresses`, `AddressSeams` | injectivity, exact acceptance, text comparison = numeric order, read-back of everything printed |
| JSON | `ExitCodes`, `Masking`, `Redaction`, `Secrets`, `Submit`, `WithdrawGate`, `WithdrawRefinement` | exact acceptance, idempotent and shape-keeping sanitizing that invents no code, a storage reader that refines the contract's `require`s |
| scanner | `SourceProbe`, `SourceGrammar`, `SourceReading`, `SourceAnswer`, `SourceDeclaration`, `SourceItem`, `SourceComments` | at the first brace behind the declaration `body_of` answers if and only if a well-formed group stands there, and `code_of` with that group without comments; when that brace is the item's own; which signatures are found; when the comment-free text reads the same |
| shared | `Wrappers`, `Lists`, `Text`, `Alphabets`, `Numerals`, `Hexadecimal`, `Json` | trimming, searching, numerals in both notations, the value type of `serde_json`; each class of characters spelled out as a table |

`dafny verify dfyconfig.toml` checks the whole project.

Loops are methods proved against functions of their inputs (`SkipBlock`, `ScanGroup`, `WalkFlags`,
`ForWholeUsdc`, `Check`, ...); the deal is a class whose methods are proved against `Machine.Step`;
everything the source writes as expressions is a function. Integers carry their Rust widths explicitly
(`U64_MAX`, `U128_MAX`, saturating and wrapping where the code saturates and wraps). Text is a sequence
of characters; where the code counts UTF-8 bytes, `Text.ByteLen` does.

## Where the code does not do what its comments say

The code is followed in each case; a lemma shows the input, and another says exactly when the promise
holds.

- `crates/core/src/settle.rs:25` says the net burn is always positive. It is zero for one tick at price one
  (`Settle.NetBurnCanBeZero`), and again for 2^40 ticks at 200 * 2^24, where it is 2^64 units and the cast
  to `u64` drops them (`Settle.NetBurnCanWrap`). As long as it fits a `u64`, it is positive exactly when the
  net rate times `n * p` reaches one unit (`Settle.NetBurnPositiveExactly`); from 50 ticks on that is
  `n * p >= 200` (`Settle.CappedBurnExactly`). A share in basis points is exact if and only if it fits
  (`Settle.MulBpsExact`).
- `crates/core/src/machine.rs:208-226` explains that a dead deal must not settle again. Three steps carry
  no such guard (lines 285, 295, 331): `MachineRuns.UnguardedSettlesTwice` settles one deal twice through
  each, and `MachineRuns.EndedStaysEndedExactly` says these three are the only ones that can.
- `crates/core/src/machine.rs:353-354` puts the trial tick at risk on the probe. A dispute there forgets it
  (`MachineRuns.ProbeDisputeDropsTheRisk`); a dispute keeps the buyer's risk exactly when the deal is past
  its probe or the price is zero (`MachineRuns.DisputeMovesNothing`).
- `crates/core/src/note_withdraw_gate.rs:218-219` says an unreadable gate is never given a verdict. Two
  fields are read although they render nothing: a `_busy` object without a usable value reads as "not
  busy", and `_lockedInOrders` rows that give one token type two amounts read as a lock.
  `WithdrawRefinement.FalseVerdicts` shows whole documents, one clear and two held, that no note explains;
  `WithdrawRefinement.VerdictIsTrueExactly` says of every verdict that some note explains it if and only if
  no such `_busy` and no such rows stand behind nothing but closed gates.
- `crates/core/src/address.rs:613-661` records that a stored DApp id is rewritten
  (`AddressSeams.ForeignDappIsLost`). A reload keeps an address exactly when its DApp is the seam's own
  (`AddressSeams.ReloadKeepsExactly`), and over any sequence of loads and saves it is kept exactly when its
  DApp is the one that sequence ends with (`AddressSeams.AddressKeptExactly`).
- `crates/core/src/address.rs:319-321` says other text is carried through untouched; saving trims it
  (`AddressSeams.PaddedTextIsTrimmed`). It is untouched exactly when it is never written or has nothing to
  trim (`AddressSeams.OtherTextKeptExactly`).
- `crates/core/src/onchain_diagnostics.rs:582-593` replaces secrets one after the other by a marker that can
  spell a secret anew: `redacted`, or `>passwrd` in `>passwrdpasswrd` (`Masking.SecretsThatStay`). A secret
  that does not overlap the marker is removed from every text in every order (`Masking.MaskRemoves`). A
  single secret is removed from every text if and only if no offset to the marker respells it
  (`Masking.RemovedAloneExactly`), and one beside a later secret that shares no character with it if and
  only if it does not overlap the marker (`Masking.RemovedBesideExactly`).
- `crates/core/src/params.rs:182-186` refuses values that are not decimal numbers, yet a lone point is read
  as zero (`ShellAmount.LonePointIsZero`). An accepted text holds a digit if and only if its parts before
  and behind the point are not both empty (`ShellAmount.NumberExactly`).
- `crates/core/src/params.rs:1799-1812` saturates: the longest deal outspends its reserve
  (`DealGas.SaturatedReserveFallsShort`). The reserve suffices for every order of the counted charges exactly
  when it does not saturate (`DealGas.ReserveSufficesExactly`).
- `crates/dexdo/src/source_probe.rs:35-36` takes the occurrence that starts a line for the declaration. One
  inside another occurrence is passed over (`SourceDeclaration.TwoLinesCanBeSkipped`). The first
  declaration is found in every source if and only if the signature never restarts at the start of one of
  its own lines (`SourceDeclaration.FindsFirstExactly`), which no one-line signature does.

- `crates/dexdo/src/source_probe.rs:21-22` promises the item from its opening brace to the matching close.
  The opening brace is searched as plain text, so one in a comment of the head is taken
  (`SourceItem.BraceInHeadMisleads`), and so is an occurrence of the signature inside a comment
  (`SourceItem.CommentIsTakenForTheItem`). The scan opens at the declared item's body if and only if its head
  holds no brace (`SourceItem.OpensAtBodyExactly`), and at the body of an item anywhere if and only if no
  brace stands between it and any occurrence of the signature, up to the item, that starts a line
  (`SourceItem.ItemReadExactly`); then both answers are exact.
- `crates/dexdo/src/source_probe.rs:160-171` has `code_of` return text without comments. Taking one out can
  join an `r` and a literal to a raw string with a comment behind it (`SourceComments.FusedTextIsNotStable`).
  The text reads as the same pieces without their comments if and only if nothing is joined
  (`SourceComments.CodeReadsExactly`), and then stripping it again changes nothing
  (`SourceComments.StripsOnce`).

## Model

| member | source | states |
|---|---|---|
| SourceProbe.SkipBlock | crates/dexdo/src/source_probe.rs:74-90 | the nested-comment loop ends where the comment `depth` openers deep closes, or at the end of the text |
| SourceProbe.SkipQuoted | crates/dexdo/src/source_probe.rs:130-144 | the literal loop ends behind the first quote that no backslash escapes |
| SourceProbe.ReadLexeme | crates/dexdo/src/source_probe.rs:64-145 | which comment, literal, lifetime or single character starts at an index, and where it ends |
| SourceReading.TickExactly | crates/dexdo/src/source_probe.rs:110-144 | in every text a tick opens a lifetime if and only if a character of the spelled-out alphabet follows and no tick behind it; otherwise the literal up to its closing tick |
| SourceReading.RawExactly | crates/dexdo/src/source_probe.rs:92-109 | in every text an `r` opens a raw string if and only if a quote follows, behind `#`s only |
| SourceProbe.DeclarationStart | crates/dexdo/src/source_probe.rs:37-51 | the first non-overlapping match of the signature that only blanks precede on its line |
| SourceProbe.ScanGroup | crates/dexdo/src/source_probe.rs:58-158 | the brace loop stops behind the brace that brings the depth back to zero; the depth is a natural number, so it never underflows |
| SourceProbe.BodyOf | crates/dexdo/src/source_probe.rs:27-158 | the loop version of `body_of` computes `Body`, its three panics included |
| SourceProbe.StripComments | crates/dexdo/src/source_probe.rs:178-268 | the copy loop computes `Strip`: comments dropped, everything else copied |
| SourceProbe.CodeOf | crates/dexdo/src/source_probe.rs:174-268 | `code_of` is `Strip` of what `body_of` returns |
| SourceReading.LexesPiece | crates/dexdo/src/source_probe.rs:61-145 | where a grammar piece stands, the scanner reads that piece and all of it |
| SourceReading.CrossesPieces | crates/dexdo/src/source_probe.rs:58-158 | over any sequence of pieces the brace count comes out as it went in |
| SourceReading.PieceOccurs | crates/dexdo/src/source_probe.rs:150 | a piece that stands in a text is spelled there, character by character |
| SourceReading.StripsPieces | crates/dexdo/src/source_probe.rs:178-268 | over any sequence of pieces the copy is those pieces without their comments, newlines of line comments kept |
| SourceAnswer.PiecesInWindow | crates/dexdo/src/source_probe.rs:174-176 | cutting the body out of the file changes the reading of none of its pieces |
| SourceItem.OpensAtBodyExactly | crates/dexdo/src/source_probe.rs:21-158 | for a declared item with any head and body of pieces, the scan opens at its body if and only if the head holds no brace, and otherwise earlier; without one, `body_of` returns exactly the body group and `code_of` exactly it without comments |
| SourceItem.ItemReadExactly | crates/dexdo/src/source_probe.rs:21-158 | for an item anywhere, the scan opens at its body if and only if no brace stands between it and any occurrence of the signature, up to the declaration, that starts a line; and then both answers are exact |
| SourceItem.FailsExactly | crates/dexdo/src/source_probe.rs:44-158 | each of the three panics, exactly: nothing is declared, no brace stands behind the declaration, or no group of whole pieces stands at it |
| SourceItem.BraceInHeadMisleads | crates/dexdo/src/source_probe.rs:53-55 | an item with a brace in a comment of its head that is never closed for the scan |
| SourceItem.CommentIsTakenForTheItem | crates/dexdo/src/source_probe.rs:35-51 | an item whose signature is found inside a comment before it |
| SourceComments.CodeReadsExactly | crates/dexdo/src/source_probe.rs:160-268 | the comment-free text reads as the group's own pieces without their comments if and only if taking the comments out joins no `r` to a quote and no one-letter lifetime to a tick |
| SourceComments.StripsOnce | crates/dexdo/src/source_probe.rs:160-268 | where nothing is joined, stripping the comment-free text again changes nothing |
| SourceComments.FusedTextIsNotStable | crates/dexdo/src/source_probe.rs:160-268 | a group whose comment-free text holds a comment |
| SourceAnswer.BodyIsAGroup | crates/dexdo/src/source_probe.rs:27-158 | conversely, whatever `body_of` returns is such a group at the item's first brace |
| SourceDeclaration.FirstDeclaration | crates/dexdo/src/source_probe.rs:35-51 | searching non-overlapping matches skips no declaration of a signature that never restarts: no earlier occurrence starts a line |
| SourceDeclaration.FindsFirstExactly | crates/dexdo/src/source_probe.rs:35-51 | a signature's first declaration is found in every source if and only if the signature never restarts at the start of one of its own lines |
| SourceDeclaration.OneLineNeverRestarts | crates/dexdo/src/source_probe.rs:35-51 | signatures on one line never restart |
| SourceDeclaration.StartsLineExactly | crates/dexdo/src/source_probe.rs:40-43 | a position starts a line if and only if everything before it is blank or has a newline behind it |
| SourceDeclaration.TwoLinesCanBeSkipped | crates/dexdo/src/source_probe.rs:35-51 | a signature of two lines whose declaration is passed over |
| ExitCodes.ReadCodeExactly | crates/core/src/onchain_diagnostics.rs:466-479 | a value is read as the code `n` if and only if it is the number, or a text with blanks around that spells it in decimal or behind `0x`, signed or not, within `i64` |
| ExitCodes.CodeKeysExactly | crates/core/src/onchain_diagnostics.rs:397-436 | which keys carry a code of which family |
| Hexadecimal.HexValue | crates/core/src/onchain_diagnostics.rs:466-479 | a number printed from the table of hexadecimal digits denotes itself |
| Hexadecimal.HexIsHexOf | crates/core/src/onchain_diagnostics.rs:466-479 | the printed text is one of the hexadecimal texts of the number |
| Hexadecimal.ValueInEitherCase | crates/core/src/onchain_diagnostics.rs:466-479 | a hexadecimal text denotes the same number in either case |
| Hexadecimal.ReadCodeBack | crates/core/src/onchain_diagnostics.rs:466-479 | every code is read back from its hexadecimal text, in either case and behind zeros, from its decimal text, and its negative from behind a minus |
| Hexadecimal.ReadUintBack | crates/core/src/note_withdraw_gate.rs:273-294 | every `u128` is read back from its hexadecimal and its decimal text |
| Alphabets.DigitExactly | crates/core/src/note_withdraw_gate.rs:284-287 | a hexadecimal digit is worth its place in the table, in either case |
| Alphabets.NameStartExactly | crates/dexdo/src/source_probe.rs:122-125 | the spelled-out alphabet is the ASCII letters and `_` |
| Alphabets.LowerCharExactly | crates/core/src/address.rs:67-70 | lower-casing maps one alphabet onto the other and leaves everything else alone |
| Alphabets.SpaceExactly | crates/core/src/address.rs:58-60 | the blanks that trimming removes |
| Alphabets.WidthIsLeast | crates/core/src/manifest.rs:143-150 | a character takes the least number of UTF-8 bytes that holds it |
| Json.FieldNamedExactly | crates/core/src/onchain_diagnostics.rs:458-464 | the first field of a name is the one that is read |
| ExitCodes.Collect | crates/core/src/onchain_diagnostics.rs:370-436 | the recursive collectors append exactly `Codes`, for exit codes and for action result codes |
| ExitCodes.CollectFields | crates/core/src/onchain_diagnostics.rs:372-386 | the loop over an object appends the codes of its fields in order, each field's own before those inside it |
| ExitCodes.CollectItems | crates/core/src/onchain_diagnostics.rs:387-393 | the loop over an array appends the codes of its items in order, under numbered stages |
| ExitCodes.FirstNonzero | crates/core/src/onchain_diagnostics.rs:342-346 | the code found is one of them and nonzero; when none is found all are zero |
| ExitCodes.NoneFound | crates/core/src/onchain_diagnostics.rs:338-368 | when the collector finds no code, or no nonzero one, no position at any depth carries one |
| ExitCodes.FirstFound | crates/core/src/onchain_diagnostics.rs:338-368 | the first code found, or the first nonzero one, stands at a position before which, in traversal order, no position carries one |
| ExitCodes.StageIsTheWay | crates/core/src/onchain_diagnostics.rs:370-395 | a code is reported with the way, keys and indices, to the object whose field carries it |
| Submit.AcceptedExactly | crates/core/src/onchain_diagnostics.rs:33-61 | a response is accepted if and only if `error` is absent or null, no code at any depth is nonzero and `result.aborted` is not true; accepted it is unchanged, refused its payload is the sanitized response |
| Submit.CauseExactly | crates/core/src/onchain_diagnostics.rs:33-61 | the cause is a rejection if and only if there is an error; otherwise an exit code if and only if one is nonzero, an action code if and only if only one of those is, and an abort if and only if none is and it is aborted |
| Submit.ShownExactly | crates/core/src/onchain_diagnostics.rs:338-368 | a message shows the first nonzero code in traversal order, the first one if all are zero, and none only if no position carries any |
| Submit.MessageShows | crates/core/src/onchain_diagnostics.rs:194-235 | a rejection shows the codes of the sanitized error, an abort those of the response |
| Submit.ReportedIsFirst | crates/core/src/onchain_diagnostics.rs:33-61 | the reported code is the first nonzero one in traversal order, an action code only when no exit code fails |
| Submit.RejectionShowsSentCodes | crates/core/src/onchain_diagnostics.rs:194-213 | a rejection is described from the sanitized error and still shows only codes that were sent |
| Masking.MaskLoop | crates/core/src/onchain_diagnostics.rs:582-593 | the replacement loop computes `Mask` |
| Masking.MaskShows | crates/core/src/onchain_diagnostics.rs:582-593 | a masked text is the text itself or shows the marker |
| Masking.FoundOrRespelled | crates/core/src/onchain_diagnostics.rs:589-591 | what shows after a replacement was in the text, or is spelled across a marker |
| Masking.MaskRemoves | crates/core/src/onchain_diagnostics.rs:582-593 | in any text and any replacement order, no secret is left that does not overlap the marker |
| Masking.PutsBackInside | crates/core/src/onchain_diagnostics.rs:582-593 | every secret that can start inside the marker is put back in the text made of it and its own tail |
| Masking.RemovedAloneExactly | crates/core/src/onchain_diagnostics.rs:582-593 | a single secret is removed from every text if and only if no offset to the marker spells it anew |
| Masking.RemovedBesideExactly | crates/core/src/onchain_diagnostics.rs:582-593 | beside a later secret that shares no character with it, a secret is removed from every text if and only if it does not overlap the marker |
| Masking.PlainOverlapsExactly | crates/core/src/onchain_diagnostics.rs:582-593 | without angle brackets, a secret of eight bytes or more overlaps the marker if and only if it is the word `redacted` |
| Masking.SecretsThatStay | crates/core/src/onchain_diagnostics.rs:582-593 | two secrets of eight bytes that masking leaves in a text |
| Redaction.CollectStrings | crates/core/src/onchain_diagnostics.rs:504-517 | the collector inserts exactly the non-empty texts at any depth |
| Redaction.CollectEchoSecrets | crates/core/src/onchain_diagnostics.rs:481-495 | the collector inserts exactly the texts under credential keys, and looks inside external-message tokens |
| Secrets.StringsExactly | crates/core/src/onchain_diagnostics.rs:504-517 | a text is collected if and only if it is not empty and stands at some position |
| Secrets.SecretExactly | crates/core/src/onchain_diagnostics.rs:481-495 | a text is secret if and only if it is not empty and stands at or below a field with a credential key that is no message token |
| Secrets.CredentialInAnyCase | crates/core/src/onchain_diagnostics.rs:497-580 | a key is a credential in any case of its letters, and every message token is one |
| Secrets.NoCredentialEchoed | crates/core/src/onchain_diagnostics.rs:63-67 | a text of eight bytes or more below a credential key, that does not overlap the marker, stands in no text of the sanitized value |
| Secrets.MaskedWhole | crates/core/src/onchain_diagnostics.rs:582-593 | with the longest secrets replaced first, a text that is a secret is masked whole, whatever shorter secrets stand inside it |
| Redaction.MaskOrderExists | crates/core/src/onchain_diagnostics.rs:583-588 | every set of secrets has a replacement order: those of eight bytes or more, longest first |
| Redaction.MaskOrderUsable | crates/core/src/onchain_diagnostics.rs:583-588 | no such order replaces the empty text |
| Redaction.SanitizeIdempotent | crates/core/src/onchain_diagnostics.rs:63-67 | sanitizing twice is sanitizing once, whatever tie order either pass uses |
| Redaction.SanitizeKeepsShape | crates/core/src/onchain_diagnostics.rs:519-542 | at every position: a credential field is the marker, every other value keeps its kind, keys and length |
| Redaction.NoEchoSurvives | crates/core/src/onchain_diagnostics.rs:519-593 | no text anywhere in a sanitized value contains a masked secret that does not overlap the marker |
| Redaction.SanitizeInventsNothing | crates/core/src/onchain_diagnostics.rs:348-352 | the codes collected from a sanitized value, stages included, are a subsequence of those of the original |
| WithdrawGate.ReadUintExactly | crates/core/src/note_withdraw_gate.rs:273-294 | the integer reader returns `n` exactly on the renderings of `n`: number, decimal or `0x` text, with blanks around |
| WithdrawGate.ReadBoolExactly | crates/core/src/note_withdraw_gate.rs:378-391 | the flag reader returns `b` exactly on its renderings |
| WithdrawGate.ReadBusyExactly | crates/core/src/note_withdraw_gate.rs:395-415 | the latch reader is exact but for objects that render nothing, which it reads as free |
| WithdrawGate.FieldRowsExactly | crates/core/src/note_withdraw_gate.rs:306-356 | a locked-orders object is read as the rows it renders, all or nothing |
| WithdrawGate.ItemRowsExactly | crates/core/src/note_withdraw_gate.rs:306-356 | a locked-orders array of pairs or row objects is read as the rows it renders, all or nothing |
| WithdrawRefinement.CascadeInOrder | crates/core/src/note_withdraw_gate.rs:362-480 | the early-return cascade is the eleven field readings taken in `WITHDRAW_GATE_FIELDS` order |
| WithdrawGate.ListsExactly | crates/core/src/note_withdraw_gate.rs:306-356 | rows list a map of locks, in any order, if and only if no two of them contradict each other |
| WithdrawRefinement.RefinesContract | crates/core/src/note_withdraw_gate.rs:362-480 | for every note and every rendering of it, map rows in any order, the verdict is clear exactly when all eleven requires pass, and otherwise the first failing gate with its field, its exit code and what the note holds there; of several locks it names a nonzero one |
| WithdrawRefinement.AscendingNamesTheContractsLock | crates/core/src/note_withdraw_gate.rs:306-356 | where the rows ascend by token type, the lock named is the one the contract's loop stops at |
| WithdrawRefinement.GateOfRequire | crates/core/src/note_withdraw_gate.rs:58-126 | a gate that tells what the k-th require stopped at carries the k-th field and that require's exit code |
| WithdrawGate.SaturatedExactly | crates/core/src/note_withdraw_gate.rs:457-465 | an open-order count is told as it is, up to the largest `u32` |
| WithdrawRefinement.NeverSkips | crates/core/src/note_withdraw_gate.rs:237-249 | on any JSON at all, every gate before the verdict was read and found closed; an unreadable field renders no note whatever |
| WithdrawRefinement.VerdictIsTrueExactly | crates/core/src/note_withdraw_gate.rs:213-220 | a verdict, clear or held, is explained by a note rendered up to its stop if and only if no `_busy` object that renders nothing, and no lock rows that contradict each other, stand behind nothing but closed gates |
| WithdrawRefinement.FalseVerdicts | crates/core/src/note_withdraw_gate.rs:395-411 | whole documents with a clear and two held verdicts that no note explains |
| ModelId.WalkFlags | crates/core/src/manifest.rs:166-199 | the `seen`/`last_slot` loop computes `Walk` |
| ModelId.ParseId | crates/core/src/manifest.rs:143-207 | the parser computes `Parse`, every refusal included |
| ModelId.WalkAccepts | crates/core/src/manifest.rs:166-199 | the loop accepts exactly flags of strictly increasing slots, and sets exactly those |
| ModelId.WindowExactly | crates/core/src/manifest.rs:102-135 | a window flag is exactly a canonical positive `u64` between `w` and `k` |
| ModelId.FlagsExactly | crates/core/src/manifest.rs:102-200 | a list of tokens is accepted as these flags if and only if it spells them: unit, window, resolution, `tools`, `think`, precision, each by a text of its own kind and at most once, in this order |
| ModelId.RenderOfParse | crates/core/src/manifest.rs:143-207 | rendering a parsed id in slot order gives back the name, for every accepted name |
| ModelId.ParseInjective | crates/core/src/manifest.rs:143-207 | two different names never parse to the same id |
| ModelId.AcceptedExactly | crates/core/src/manifest.rs:143-207 | a name is accepted if and only if it fits 127 bytes, has three non-blank parts and flags in increasing slots |
| ModelId.BaseRefusedExactly | crates/core/src/manifest.rs:143-164 | which names are refused as too long, and which for lack of three non-blank parts |
| ModelId.ParsesBackExactly | crates/core/src/manifest.rs:143-207 | an id parses back from its rendering if and only if it is well-formed |
| Machine.StreamMachine.Open | crates/core/src/machine.rs:119-130 | a deal opens on the probe with a bond of two ticks |
| Machine.StreamMachine.OnProbeAccepted | crates/core/src/machine.rs:133-144 | the method is the `ProbeAccepted` step and keeps the machine's invariant |
| Machine.StreamMachine.OnClaim | crates/core/src/machine.rs:176-191 | the method is the `Claim` step: refused outside streaming or below the pending total, otherwise pending becomes trusted |
| Machine.StreamMachine.OnPromote | crates/core/src/machine.rs:194-206 | the method is the `Promote` step |
| Machine.StreamMachine.BuyerStop | crates/core/src/machine.rs:235-262 | the method is the `BuyerStop` step, refusing dead states |
| Machine.StreamMachine.SellerStop | crates/core/src/machine.rs:268-281 | the method is the `SellerStop` step, refusing dead states |
| Machine.StreamMachine.SellerNoShow | crates/core/src/machine.rs:285-291 | the method is the `NoShow` step, from any state |
| Machine.StreamMachine.BuyerDispute | crates/core/src/machine.rs:295-305 | the method is the `Dispute` step, from any state |
| Machine.StreamMachine.ReleaseDispute | crates/core/src/machine.rs:310-325 | the method is the `Release` step, refusing dead states |
| Machine.StreamMachine.ResolveDisputeTimeout | crates/core/src/machine.rs:331-338 | the method is the `Timeout` step, from any state |
| Machine.StreamMachine.CloseDeal | crates/core/src/machine.rs:341-343 | the deal is closed |
| MachineRuns.PipelineAlways | crates/core/src/machine.rs:133-206 | over every run: past the probe trusted is the greatest confirmed total, or the probe tick, pending the greatest claimed one, and trusted <= pending |
| MachineRuns.PipelineOfEveryDeal | crates/core/src/machine.rs:119-206 | the same from the opening of every deal |
| MachineRuns.TrustNeverFallsOverRuns | crates/core/src/machine.rs:133-206 | along every run that stays live neither the trusted nor the claimed total falls |
| MachineRuns.DisputeMovesNothing | crates/core/src/machine.rs:295-305 | on every live deal a dispute keeps trusted plus tail at the newest claim and, repeated, changes nothing; it keeps the buyer's risk if and only if the deal is past its probe or the price is zero |
| MachineRuns.ProbeDisputeDropsTheRisk | crates/core/src/machine.rs:295-305 | a deal on its probe whose risk a dispute sets to zero |
| MachineRuns.RiskIsTheTail | crates/core/src/machine.rs:350-362 | on every live deal at risk plus earned is claimed, at the tick price, if and only if the deal is past its probe or the price is zero; on the probe the price is at risk |
| MachineRuns.StopPaysTrusted | crates/core/src/machine.rs:235-325 | on every live deal a stop or release leaves nothing at risk, and settles exactly the trusted ticks if and only if it is not the buyer leaving the probe |
| MachineRuns.PaidByFactAlways | crates/core/src/machine.rs:235-325 | over every run each split pays the greatest confirmed total, never one that only was claimed and never an earlier one, or nothing |
| MachineRuns.EarnedIsPaid | crates/core/src/machine.rs:235-325 | on every guarded run a split pays nothing only if nothing was ever claimed |
| MachineRuns.ClaimConfirms | crates/core/src/machine.rs:176-191 | after two claims and a stop the first of them is paid |
| MachineRuns.RefusedExactly | crates/core/src/machine.rs:133-343 | which event is refused in which state, and that a refusal changes nothing |
| MachineRuns.LeadsTo | crates/core/src/machine.rs:133-343 | where each step leads and which steps settle |
| MachineRuns.NoShowReturnsTheBond | crates/core/src/machine.rs:285-291 | a no-show returns the seller's whole bond and burns nothing |
| MachineRuns.TimeoutBurnsBoth | crates/core/src/machine.rs:331-338 | a timeout burns the whole bond and as much of the buyer's escrow, and returns nothing |
| MachineRuns.OneSettlement | crates/core/src/machine.rs:208-343 | on every run whose unguarded steps meet live deals, the state rank only moves forward, streaming is not re-entered and nothing settles twice |
| MachineRuns.EndedStaysEndedExactly | crates/core/src/machine.rs:208-343 | on an ended deal a step settles and revives nothing if and only if it is not one of the three unguarded ones |
| MachineRuns.UnguardedSettlesTwice | crates/core/src/machine.rs:285-338 | runs in which each unguarded step leads to a second settlement |
| MachineRuns.BondConservedExactly | crates/core/src/machine.rs:235-338 | what burns and what returns is the whole bond if and only if twice the price fits `u64` |
| Settle.MulBpsExact | crates/core/src/settle.rs:102-104 | a share in basis points is the exact floored share if and only if it fits `u64` |
| Settle.FiguresAreShares | crates/core/src/settle.rs:9-34 | fee, rebate and burn are each the floored share of their own rate, as long as it fits `u64` |
| Settle.RateIsTheLesser | crates/core/src/settle.rs:14-18 | the rebate rate is the lesser of the cap and slope times ticks |
| Settle.RatesAddUp | crates/core/src/settle.rs:25-34 | rebate rate and burn rate make up the fee rate, unless the rebate alone exceeds it |
| Settle.FeeSplits | crates/core/src/settle.rs:9-34 | rebate + burn <= fee <= rebate + burn + 1 |
| Settle.RebateSuperadditive | crates/core/src/settle.rs:14-23 | two deals are never rebated more than one deal of their length |
| Settle.NetBurnPositiveExactly | crates/core/src/settle.rs:25-34 | for all constants, as long as the burn fits `u64`, it is positive if and only if the net rate of `n * p` reaches one unit |
| Settle.NetBurnCanWrap | crates/core/src/settle.rs:25-34 | two `u64` figures whose burn of 2^64 units is cast to nothing |
| Settle.NetBurnCanBeZero | crates/core/src/settle.rs:25-34 | one tick at price one burns nothing on the canonical constants |
| Settle.CanonicalBurns | crates/core/src/params.rs:2135-2151 | on the canonical constants `n * p >= 200` burns something and keeps the rebate below the fee |
| Settle.CappedBurnExactly | crates/core/src/settle.rs:25-34 | from 50 ticks on, as long as the burn fits `u64`, something burns if and only if `n * p >= 200` |
| Settle.ProbeBurn | crates/core/src/settle.rs:91-99 | the probe burn and its refund add up to the bond, the seller burns one tick or his whole bond, and never more than the buyer |
| Settle.Contested | crates/core/src/settle.rs:71-78 | the whole bond burns, nothing returns, and the buyer burns the lesser of his deposit and the bond |
| ClaimLimit.TimeBoundsClaims | crates/core/src/params.rs:2153-2179 | for any list of gaps the claim limits add up to at most the rate allowance of the whole time |
| ClaimLimit.CallsBoundClaims | crates/core/src/params.rs:2167-2179 | they add up to at most one tick per call |
| ClaimLimit.TicksNeedCalls | crates/core/src/params.rs:2153-2179 | k ticks need at least k calls and k tick times |
| ClaimLimit.FullTickAfterTickTime | crates/core/src/params.rs:2167-2179 | one claim may assert a whole tick if and only if a whole tick time has passed, or there is no floor |
| ClaimLimit.LimitIsTheLargest | crates/core/src/params.rs:2167-2179 | a total may be claimed if and only if it is at most one tick and, where there is a floor, the rate covers it |
| ClaimLimit.SecsExactly | crates/core/src/params.rs:2167-2173 | durations count in whole seconds, rounded down |
| DealGas.ReserveSufficesExactly | crates/core/src/params.rs:1799-1812 | no order of the enumerated charges ever drives the reserve below zero, if and only if the reserve does not saturate |
| DealGas.ReserveIsLeast | crates/core/src/params.rs:1799-1812 | any smaller reserve falls short of some order of the enumerated charges |
| DealGas.RequirementGrows | crates/core/src/params.rs:1857-1864 | the requirement is the reserve and the surplus together, up to `u128::MAX` |
| DealGas.SaturatedReserveFallsShort | crates/core/src/params.rs:1799-1812 | a deal of `u128::MAX` ticks that outspends its reserve |
| DealGas.TargetCoversFloor | crates/core/src/params.rs:1884-1940 | the top-up target is never under the floor, less than one SHELL over it, and no whole SHELL less would do |
| DealGas.FloorBelowWorth | crates/core/src/params.rs:1866-1893 | for every deal of two ticks or more the whole-SHELL floor is below its worth at one SHELL a tick |
| ShellAmount.PrintAmount | crates/core/src/params.rs:155-167 | the zero-dropping loop computes `Print` |
| ShellAmount.PrintedExactly | crates/core/src/params.rs:155-167 | of all the ways to write a figure, the one without superfluous zeros is printed |
| ShellAmount.ParseExactly | crates/core/src/params.rs:187-228 | the parser returns `raw` if and only if the trimmed text is digits, or digits around a point with at most nine behind it, denoting `raw` within `u128` |
| ShellAmount.NumberExactly | crates/core/src/params.rs:182-228 | an accepted amount holds a digit if and only if its two parts are not both empty; otherwise it is the lone point, read as zero |
| ShellAmount.LonePointIsZero | crates/core/src/params.rs:182-228 | a lone point is accepted as zero |
| ShellAmount.PrintRoundTrip | crates/core/src/params.rs:155-228 | every `u128` figure is read back from its printed text |
| ShellAmount.FixedRoundTrip | crates/core/src/accumulator.rs:309-320 | the fixed-width rendering has nine decimals and is read back as the same figure |
| SellPlan.ForWholeUsdc | crates/core/src/accumulator.rs:119-169 | refused exactly on zero, on overflow or without room for the counted lots; otherwise the plan's lots are table sizes, largest first, priced, adding up to the request and as many as counted |
| SellPlan.PushLots | crates/core/src/accumulator.rs:149-161 | the inner loop adds the given number of lots of one size and keeps the order |
| SellPlan.CountIsGreedy | crates/core/src/accumulator.rs:130-138 | the four divisions count the lots of a seller who takes the largest fitting lot again and again |
| SellPlan.FewestFrom | crates/core/src/params.rs:1577-1584 | no sequence of table sizes up to the k-th with the same sum is shorter than the greedy one from that size |
| SellPlan.PlanIsMinimal | crates/core/src/accumulator.rs:119-169 | no cut of the amount into table sizes has fewer lots than the plan |
| SellPlan.PlanIsUnique | crates/core/src/accumulator.rs:119-169 | one amount has one plan |
| SellPlan.MessagesConserve | crates/core/src/accumulator.rs:177-195 | what the single messages carry plus what is left is the balance; a plan is refused exactly when they carry more, and the refusal names both figures |
| SellPlan.FundedExactly | crates/core/src/accumulator.rs:172-185 | a plan is funded if and only if it converts no more than the balance buys |
| SellPlan.ForAvailableShell | crates/core/src/accumulator.rs:172-174 | the plan for a balance is funded and leaves exactly the remainder below one eccUSDC |
| OracleBounds.CompareIsNumeric | crates/core/src/oracle_manifest.rs:16-22 | comparing digit strings by length and letters is comparing their numbers, leading zeros or not |
| OracleBounds.MaxDecValue | crates/core/src/oracle_manifest.rs:12-14 | the 78-digit literal denotes 2^256 - 1 |
| OracleBounds.Uint256DecExactly | crates/core/src/oracle_manifest.rs:24-29 | the decimal check accepts exactly the non-empty digit strings up to 2^256 - 1 |
| OracleBounds.Uint256HexFits | crates/core/src/oracle_manifest.rs:31-37 | an accepted hexadecimal text denotes a number up to 2^256 - 1 |
| OracleBounds.Uint256HexExactly | crates/core/src/oracle_manifest.rs:31-37 | a hexadecimal text is accepted if and only if it is `0x` and one to 64 characters of the table of digits, in either case |
| OracleBounds.Validate | crates/core/src/oracle_manifest.rs:96-162 | a manifest is accepted if and only if fields and ids are in order, every pair of bounds is strictly ordered by value and outcomes are bounds + 1 < 20 |
| OracleBounds.DeployableExactly | crates/core/src/oracle_manifest.rs:96-162 | what a deployable manifest holds, field by field |
| OracleBounds.Check | crates/core/src/oracle_manifest.rs:97-161 | the loops report the first fault in the order of the checks, or there is none |
| Addresses.ParseExactly | crates/core/src/address.rs:57-87 | a text parses to an address if and only if it spells it canonically, with blanks around either half, or in the legacy form |
| Addresses.ParseIsWellFormed | crates/core/src/address.rs:47-57 | both halves of a parsed address are 64 lower-case hex digits |
| Addresses.DisplayRoundTrip | crates/core/src/address.rs:106-110 | a displayed address takes 130 characters and parses back to itself, DApp included |
| Addresses.LegacyRoundTrip | crates/core/src/address.rs:99-103 | the chain form parses back to the account, in the shared DApp |
| AddressSeams.ArgReadsDisplayed | crates/core/src/address.rs:124-175 | a displayed address is accepted as an argument, as its account's chain form |
| AddressSeams.ArgReadsShown | crates/core/src/address.rs:154-216 | whatever either printer makes of an address is accepted as the same account |
| AddressSeams.AdviceIsAccepted | crates/core/src/address.rs:142-172 | the address the one-colon refusal advises is accepted by the boundary that refused |
| AddressSeams.ArgAgreesWithLoad | crates/core/src/address.rs:124-175 | no address is refused as an argument, and file and argument name the same account |
| AddressSeams.ArgIsStable | crates/core/src/address.rs:154-175 | what the argument boundary lets through it lets through again, unchanged |
| AddressSeams.RefusedExactly | crates/core/src/address.rs:154-175 | an argument is refused if and only if it holds a `::` and is no address, or holds none and a DApp id stands before a colon; anything else is handed on trimmed |
| AddressSeams.RefusedBefore | crates/core/src/address.rs:159-172 | the refusal names the DApp id and what follows the colon, and whether that is an account |
| AddressSeams.RunRefines | crates/core/src/address.rs:322-385 | over every sequence of loads and saves the text says what the account-and-optional-DApp model says |
| AddressSeams.AccountIsKept | crates/core/src/address.rs:322-385 | no sequence of loads and saves through either seam loses or changes the account |
| AddressSeams.AddressKeptExactly | crates/core/src/address.rs:315-385 | the whole address survives a sequence if and only if its DApp is the one the sequence ends with |
| AddressSeams.ReloadKeepsExactly | crates/core/src/address.rs:613-661 | a load and a save keep an address if and only if its DApp is the seam's |
| AddressSeams.ForeignDappIsLost | crates/core/src/address.rs:629-661 | an address of another DApp that a load and a save rewrite |
| AddressSeams.OtherTextPasses | crates/core/src/address.rs:315-336 | text that is no address never becomes one and is at most trimmed |
| AddressSeams.OtherTextKeptExactly | crates/core/src/address.rs:315-336 | such a text comes through unchanged if and only if it is never written or has nothing to trim |
| AddressSeams.PaddedTextIsTrimmed | crates/core/src/address.rs:315-336 | a padded placeholder that saving rewrites |

## Left out

- SourceComments.StripsOnce: one way only; a text in which something was joined can still come through a second stripping unchanged, when no comment came of it.
- Masking.MaskRemoves: the condition is necessary for a secret masked alone or before one that shares no character with it; whether one fixed order of several related secrets can respell an overlapping secret is not stated.
- Redaction.NoEchoSurvives: rests on that condition.
- Settle.FeeSplits: stated within the no-overflow bound `Fits` and for a rebate cap at or below the fee, which `ProtocolConsts` asserts; beyond the bound the product wraps and `MulBps` follows it.
- SellPlan.ForWholeUsdc: the allocator's refusal of a reservation is a parameter, the largest reservation it grants.
- Settle.MulBps: a debug build panics where the product overflows `u128`; the model follows the wrapping of a release build.
- Message texts, labels and names: `contract_error_names`, `next_step`, `contract_line`, `withdraw_gate_line`, the wording of every refusal. Errors are opaque values with the data they report.
- `check_withdrawal_arrival`, `BuyPlan`, `denomination_counts`, the getter decoders, `to_dapp_id_param` and the optional and list variants of the serde seams: single comparisons or per-element maps of modelled functions.
- `MarketManifest`, `resolve_model_name` and the model hash: they rest on SHA-256.
- `ChainAddress` and `parse_chain_address`: they rest on the SDK's address parser.
- JSON text: documents are values; a number is an integer or an uninterpreted other number, and an object is its fields in iteration order.
- The scanner indexes characters where the code indexes bytes; it only compares with ASCII, which no byte of a longer character equals.
- Order among equal-length secrets: left open, and the results hold for every order.
- The clock: elapsed times are arguments of the claim limit.
- Wallet, note keys, handover files, command line, environment, network clients and retry timing.
