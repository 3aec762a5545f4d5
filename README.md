# MICARDO card driver: a verified model

This project models the core of OpenSC's driver for MICARDO smart cards (the
German signature card), `src/libopensc/card-mcrd.c`. Its heart is file
selection. The driver keeps a cache of its own. The cache holds:

- the path of the file selected last, at most ten file identifiers deep;
- an "is an EF" flag;
- a list of per-DF metadata records, each holding the records of that DF's
  EF_Rule (0030, default access rules) and EF_KeyD (0013, key information),
  read with READ RECORD.

Selection uses the cache to decide which SELECT commands to send:

- by path, absolute (from 3F00) or relative;
- by file identifier;
- by DF name.

The model also covers:

- decoding of the answer to SELECT, both the FCI check and the FCP fields;
- interpretation of expanded access rules (ARR);
- lookup of a key's security environment (SE) number in EF_KeyD;
- the formats of MANAGE SECURITY ENVIRONMENT and PERFORM SECURITY OPERATION
  (compute digital signature).

The card is an oracle. The reply to each command is any function of the command
and of every command sent before it (`Apdu.Oracle`). Every result therefore holds
for every card, stateful or not. `Apdu.Card` holds that oracle and the log of the
commands sent.

Structure:

- Each piece of driver logic has a specification function over the oracle and
  the history:
  - `Selection.Descend` for the loop of `select_down`;
  - `Store.Load` for `load_special_files`;
  - `Caching.ByPath`, `Caching.ByFid` and `Caching.SelectFile` for the
    selection entry points;
  - `KeyD.SeNumFromRecords` for `get_se_num_from_keyd`;
  - `SecEnv.SetEnvExchange` and `SecEnv.SignExchange` for the crypto operations.
- The driver itself is the class `Mcrd.Driver`. Its fields are the private data
  (`curpath`, `isEf`, `dfInfos`) and the card. Its methods carry the C control
  flow: loops, early returns and field updates. Each method is proved to produce
  exactly the commands, results and new state of its specification function.
- The lemmas prove what the driver promises about those functions.
- A decoded file is the class `Fcp.File`. `process_fcp` fills it in place.

Modules:

| module | contents |
|---|---|
| `Wrappers` | `Option` |
| `Bytes` | bytes and 16-bit identifiers |
| `Apdu` | commands, replies, errors, the card |
| `Tlv` | a first-match TLV reader |
| `Fcp` | FCP decoding |
| `Arr` | access rule interpretation |
| `Store` | READ RECORD scans and the special-file load |
| `KeyD` | the SE lookup |
| `Selection` | one SELECT and the descent |
| `Caching` | the cache and selection entry points |
| `SecEnv` | security operations |
| `Mcrd` | the driver class |

Two behaviours of the code in `src/libopensc/card-mcrd.c` are easy to misread:

- A KeyD record that names the key file but has no usable SE object
  (`7B`/`80`) does not end the lookup with SE 0. The loop `continue`s, and
  without another match the lookup gives -1 (lines 356-367).
- When the lookup gives -1, MANAGE SECURITY ENVIRONMENT is still sent. Its
  data is then only the three bytes `83 03 80`, not an error (lines 1029-1074).

## Model

| member | source | states |
|---|---|---|
| Bytes.SplitJoin | src/libopensc/card-mcrd.c:950-955 | a file identifier joined from two path bytes splits back into the same two bytes, as `select_part` sends them |
| Bytes.JoinSplit | src/libopensc/card-mcrd.c:685-686 | the two wire bytes of a file identifier join back into the identifier |
| Bytes.FidBytesInjective | src/libopensc/card-mcrd.c:685-686 | two identifiers are sent as the same bytes exactly when they are equal |
| Apdu.CheckSw | src/libopensc/card-mcrd.c:648-650 | status word check: success exactly on 90 00, "file not found" exactly on 6A 82 |
| Selection.DecodePath | src/libopensc/card-mcrd.c:950-955 | path bytes become one identifier per byte pair |
| Selection.DecodePathAt | src/libopensc/card-mcrd.c:953-954 | identifier k is `value[2k] << 8 \| value[2k+1]` |
| Selection.DecodeEncodePath | src/libopensc/card-mcrd.c:950-955 | decoding the bytes of an identifier list gives the list back |
| Selection.EncodeDecodePath | src/libopensc/card-mcrd.c:950-955 | every even-length byte string is the encoding of its decoded path, so decoding loses nothing |
| Selection.PathOfBytes | src/libopensc/card-mcrd.c:946-955 | invalid arguments exactly when the length is odd or above 16 bytes; otherwise the decoded path, which re-encodes to the request |
| Selection.StripCurrentDf | src/libopensc/card-mcrd.c:756-759 | one leading 3FFF is dropped, and nothing else changes |
| Selection.CommonPrefix | src/libopensc/card-mcrd.c:775-779 | the paths agree on the first n identifiers and differ at position n |
| Selection.CommonPrefixUnique | src/libopensc/card-mcrd.c:775-779 | any n with that property is the common prefix length |
| Selection.FciLengthAsWrittenOverruns | src/libopensc/card-mcrd.c:657 | the check as written accepts `6F 02 83`, whose FCP is one byte short |
| Selection.FciLengthAsWrittenAdmits | src/libopensc/card-mcrd.c:657 | the check as written accepts exactly the complete FCIs plus those one or two bytes short |
| Selection.FcpBody | src/libopensc/card-mcrd.c:652-660 | corrected check: the FCP is taken only when all its announced bytes follow the 6F header |
| Selection.FcpBodyRoundTrip | src/libopensc/card-mcrd.c:652-660 | for `6F len body trailer` the corrected check gives back exactly the body |
| Selection.SelectAnswer | src/libopensc/card-mcrd.c:637-666 | without a file wanted: 61 xx and good status words accept, other errors pass through; with a file wanted: a bad status is returned, a response not starting with 6F is "unknown data", and otherwise the FCP is handed on |
| Selection.Leaf | src/libopensc/card-mcrd.c:718-731 | the last component is tried as an EF; only when the card refuses it is it selected as a DF; exactly one of the two selected it |
| Selection.Descend | src/libopensc/card-mcrd.c:700-737 | success exactly when every component was selected; the cache never overflows; an EF only when not DF-only; at most one command more than components; no command only for an empty path or a full cache |
| Selection.DescendLast | src/libopensc/card-mcrd.c:718-731 | the descent of a one-component path is that component's step |
| Selection.DescendRejected | src/libopensc/card-mcrd.c:726-733 | a middle component refused as a DF ends the descent with that refusal, after one command |
| Selection.DescendStep | src/libopensc/card-mcrd.c:710-736 | a component accepted as a DF is appended, and the descent goes on below it |
| Selection.DescendBounds | src/libopensc/card-mcrd.c:714-715 | the cache is never filled beyond ten entries; an FCI is handed back only on success |
| Selection.DescendDfOnly | src/libopensc/card-mcrd.c:718-729 | with DF-only set, only DF (or MF) selects are sent |
| Selection.DescendFoundEf | src/libopensc/card-mcrd.c:720-724 | "is an EF" is set only when the last command was an EF select of the last component, and the card accepted it |
| Selection.DescendFailure | src/libopensc/card-mcrd.c:714-733 | a failed descent either hit the full cache, or its last command selected the component it stopped at and the card's answer to it is the error returned |
| Selection.DescentToEf | src/libopensc/card-mcrd.c:710-731 | the commands of a descent that reaches an EF, one per component |
| Selection.AllAcceptedTail | src/libopensc/card-mcrd.c:710-736 | acceptance of a command run passes to its tail |
| Selection.DescendReachesEf | src/libopensc/card-mcrd.c:700-737 | when the card accepts every DF and then the last component as an EF: exactly one SELECT per component, all selected, ending on an EF |
| Store.IndexOfPath | src/libopensc/card-mcrd.c:113-118 | the first entry with that path, or none exactly when no entry has it |
| Store.IndexOfPathUnique | src/libopensc/card-mcrd.c:113-118 | with one entry per path, the walk finds that entry |
| Store.WithEntry | src/libopensc/card-mcrd.c:100-132 | afterwards an entry for the path exists |
| Store.WithEntryKeepsWellFormed | src/libopensc/card-mcrd.c:113-131 | looking up or creating an entry keeps one entry per path; a new entry goes in front and adds one |
| Store.ScanRecords | src/libopensc/card-mcrd.c:247-272 | records come back newest first, numbered consecutively; one command per record, plus at most one |
| Store.ScanStep | src/libopensc/card-mcrd.c:259-271 | a returned record is kept, and the scan goes on with the next number |
| Store.ScanEnds | src/libopensc/card-mcrd.c:259-263 | a reply that is not a record ends the scan: success on 6A 83, otherwise that reply's error |
| Store.ScanReadsRecords | src/libopensc/card-mcrd.c:250-271 | the j-th record holds exactly the bytes returned to the j-th command, a READ RECORD of its number |
| Store.ScanStops | src/libopensc/card-mcrd.c:258-263 | after the last record, a scan sends one more READ RECORD, and the reply to it decides the outcome |
| Store.ScanSendsReadRecords | src/libopensc/card-mcrd.c:247-272 | a scan sends nothing but READ RECORD |
| Store.LoadKeyD | src/libopensc/card-mcrd.c:277-309 | EF_KeyD is selected first; the rules are untouched; the key records are numbered from 1 |
| Store.Load | src/libopensc/card-mcrd.c:242-309 | EF_Rule is selected first; both lists are numbered from 1 |
| Store.LoadSendsOnlySpecialCommands | src/libopensc/card-mcrd.c:242-309 | loading selects only EF_Rule and EF_KeyD, without FCI, and otherwise only reads records |
| Store.LoadToleratesMissingKeyD | src/libopensc/card-mcrd.c:278-282 | a missing EF_KeyD after a complete EF_Rule is success, with no key records |
| Store.LoadWithoutRuleFile | src/libopensc/card-mcrd.c:242-243 | a refused EF_Rule select stops the load after that command, with both lists empty |
| KeyD.FirstSettling | src/libopensc/card-mcrd.c:341-369 | the first record that names the file and carries an SE number |
| KeyD.SeNumFromRecords | src/libopensc/card-mcrd.c:322-372 | SE number -1 or one byte; reference data present whenever a number is found |
| KeyD.SeNumFromRecordsFinds | src/libopensc/card-mcrd.c:341-371 | -1 exactly when no record settles it; otherwise the first settling record's SE number and reference; the reference changes without a number only if some record named the file |
| KeyD.LookupKeyD | src/libopensc/card-mcrd.c:341-371 | the record loop gives the lookup's result |
| KeyD.KeyRecordFields | src/libopensc/card-mcrd.c:348-365 | in a record built from `83` and `7B 80`, the file, its reference and the SE number are found |
| KeyD.LookupWellFormedRecord | src/libopensc/card-mcrd.c:341-368 | such a record, first in the list, gives its SE number and reference |
| KeyD.MissingSeObjectContinues | src/libopensc/card-mcrd.c:354-361 | a record naming the file without a `7B` gives -1, and its reference data has still been written |
| Fcp.DecodeDescriptor | src/libopensc/card-mcrd.c:520-555 | the EF structure is the low three bits |
| Fcp.DescriptorRoundTrip | src/libopensc/card-mcrd.c:520-555 | the descriptor byte gives back shareable and structure; type bits 0, 1 and 7 give a working EF, an internal EF and a DF, and 2 to 6 leave the type unset |
| Fcp.SharedWorkingEf | src/libopensc/card-mcrd.c:520-555 | descriptor 41 is a shareable working EF with structure 1 |
| Fcp.FcpId | src/libopensc/card-mcrd.c:486-492 | the identifier exactly when `83` has two bytes, and it is those bytes |
| Fcp.SizeObject | src/libopensc/card-mcrd.c:494-507 | the size is taken from `81`, else `85`, else `80` |
| Fcp.FcpSize | src/libopensc/card-mcrd.c:494-517 | a size exactly when that object has two bytes or more, and it is the first two |
| Fcp.FcpDescriptor | src/libopensc/card-mcrd.c:520-523 | a descriptor exactly when `82` is present and not empty |
| Fcp.FcpName | src/libopensc/card-mcrd.c:558-576 | a name exactly when `84` has 1 to 16 bytes, and it is that value |
| Fcp.FcpPropAttr | src/libopensc/card-mcrd.c:579-589 | a non-empty `A5` wins; otherwise `85`, unless `85` was the size; whatever is set comes from one of them |
| Fcp.FcpSecAttr | src/libopensc/card-mcrd.c:592-595 | a non-empty `86`, or none |
| Fcp.FcpArrRef | src/libopensc/card-mcrd.c:598-609 | a non-empty `8B`, or else the `8B` of the `A1` template; never empty |
| Fcp.Interface | src/libopensc/card-mcrd.c:602-608 | the `8B` of a non-empty `A1` |
| Fcp.StandardTags | src/libopensc/card-mcrd.c:475-612 | in an FCP of `83 81 82 84`, each tag is found where it was put, and no other tag is found |
| Fcp.StandardFcpRoundTrip | src/libopensc/card-mcrd.c:475-612 | decoding such an FCP gives back identifier, size, descriptor and name, and no other attribute |
| Fcp.ExampleFcp | src/libopensc/card-mcrd.c:475-612 | 4101, 100 bytes, descriptor 41: a shareable working EF |
| Fcp.SizeInDescriptorExtension | src/libopensc/card-mcrd.c:497-589 | a size in `85`, with no `81`, is taken as the size and not also kept as proprietary attributes |
| Fcp.DecodedStandardFile | src/libopensc/card-mcrd.c:475-612 | decoding the standard FCP into a fresh file gives exactly those fields |
| Fcp.File.DecodeHeader | src/libopensc/card-mcrd.c:486-555 | identifier, size, type, structure and shareable become those of the FCP; the other fields are unchanged |
| Fcp.File.DecodeAttributes | src/libopensc/card-mcrd.c:558-595 | name, proprietary and security attributes become those of the FCP; the other fields are unchanged |
| Fcp.File.Decode | src/libopensc/card-mcrd.c:475-595 | the file becomes the FCP decoded into it: carried fields overwrite, missing ones stay |
| Arr.ConditionOf | src/libopensc/card-mcrd.c:440-466 | a recognised condition tag neither opens an access mode nor starts skipping |
| Arr.OpenerItem | src/libopensc/card-mcrd.c:418-431 | an access-mode object is reported as an access mode, not a condition |
| Arr.Step | src/libopensc/card-mcrd.c:413-469 | skipping starts on a bad `80` or `9C` and persists until an access mode opens; a condition is reported only outside skip mode and is the object's |
| Arr.ArrItemsEncoded | src/libopensc/card-mcrd.c:409-470 | parsing then interpreting an encoded rule is interpreting its objects |
| Arr.NoConditionBeforeAccessMode | src/libopensc/card-mcrd.c:407-408 | the walk starts in skip mode: the first item reported is never a condition |
| Arr.SkipSuppresses | src/libopensc/card-mcrd.c:413-438 | after a skip-starting object, nothing is reported until an access mode opens |
| Arr.OpenerReportsConditions | src/libopensc/card-mcrd.c:418-466 | after an access mode, each recognised condition is reported in order |
| Arr.ProcessArr | src/libopensc/card-mcrd.c:375-472 | the loop reports exactly the items of the rule, starting in skip mode |
| Caching.Entry | src/libopensc/card-mcrd.c:113-118 | the entry for a path is in the list, or none exactly when no entry has it |
| Caching.Touched | src/libopensc/card-mcrd.c:100-132 | afterwards a current path has an entry |
| Caching.WithEntryKeepsLists | src/libopensc/card-mcrd.c:119-131 | creating an entry changes no DF's cached records |
| Caching.TouchedKeepsLists | src/libopensc/card-mcrd.c:100-132 | the same for the lookup on the current path |
| Caching.TouchedKeepsWellFormed | src/libopensc/card-mcrd.c:100-132 | the lookup keeps one entry per path |
| Caching.FindRule | src/libopensc/card-mcrd.c:393-400 | the first cached rule record with that number, or none exactly when none has it |
| Caching.AclOf | src/libopensc/card-mcrd.c:375-472 | no ARR without `8B`; a reference longer than one byte is not handled; a one-byte one names the rule record that is interpreted, or is reported missing |
| Caching.StoredLists | src/libopensc/card-mcrd.c:233-309 | the DF holds exactly the stored records, every other DF what it held |
| Caching.StoredKeepsWellFormed | src/libopensc/card-mcrd.c:233-237 | storing keeps one entry per path |
| Caching.LoadSpecialCached | src/libopensc/card-mcrd.c:233-236 | a DF whose rules are cached is not read again: no command, no change |
| Caching.LoadSpecialRefills | src/libopensc/card-mcrd.c:233-309 | otherwise the DF ends up with what was read (partial lists after an abort), and no other DF changes |
| Caching.LoadSpecialKeepsWellFormed | src/libopensc/card-mcrd.c:224-315 | loading keeps one entry per path |
| Caching.Down | src/libopensc/card-mcrd.c:700-737 | empty path: invalid arguments; otherwise the descent's outcome and FCI, the path extended by what was selected, its commands first, and the EF flag the descent found on success |
| Caching.SelectMf | src/libopensc/card-mcrd.c:764-772 | one MF select; on success the cache is exactly that identifier, not an EF; on failure the cache is empty; the DF list is unchanged |
| Caching.Relative | src/libopensc/card-mcrd.c:817-835 | no command only on success or a full cache |
| Caching.Absolute | src/libopensc/card-mcrd.c:773-816 | no command only on success or a full cache |
| Caching.ByPath | src/libopensc/card-mcrd.c:745-838 | invalid arguments, with no command and nothing changed, exactly when the path (3FFF removed) is empty or ten deep |
| Caching.ByFid | src/libopensc/card-mcrd.c:840-901 | more than one identifier: invalid arguments; 3FFF: nothing; empty without FCI: nothing; empty with FCI and no cache: internal error |
| Caching.SelectFile | src/libopensc/card-mcrd.c:905-980 | DF name over 16 bytes: invalid arguments; otherwise one AID select, with the cache empty afterwards whatever the answer; odd or too long path bytes: invalid arguments |
| Caching.DownKeepsValid | src/libopensc/card-mcrd.c:700-737 | `select_down` keeps the cache within ten entries and one entry per DF |
| Caching.RelativeKeepsValid | src/libopensc/card-mcrd.c:817-835 | so does relative addressing |
| Caching.AbsoluteKeepsValid | src/libopensc/card-mcrd.c:773-816 | so does absolute addressing |
| Caching.ByPathKeepsValid | src/libopensc/card-mcrd.c:745-838 | so does selection by path |
| Caching.ByFidKeepsValid | src/libopensc/card-mcrd.c:840-901 | so does selection by identifier |
| Caching.SelectFileDispatch | src/libopensc/card-mcrd.c:957-962 | decoded paths go to selection by path or by identifier according to the path type |
| Caching.SelectFileKeepsValid | src/libopensc/card-mcrd.c:905-980 | every selection keeps the private data valid |
| Caching.MfRequestSelectsMfOnly | src/libopensc/card-mcrd.c:756-772 | 3F00, with or without 3FFF in front, sends one MF select and loads nothing |
| Caching.AlreadySelectedSendsNothing | src/libopensc/card-mcrd.c:793-797 | a held path whose FCI is not wanted sends nothing and changes nothing |
| Caching.AlreadySelectedReselectsLast | src/libopensc/card-mcrd.c:798-808 | with the FCI wanted, the last component is selected again, as an EF first, from one level up, and the path is kept |
| Caching.GoingUpSelectsOnlyDfs | src/libopensc/card-mcrd.c:785-792 | going up the held path restarts at the root with DF selects only, never ends on an EF, and on success the cache is exactly the requested path |
| Caching.AbsoluteEndsOnRequest | src/libopensc/card-mcrd.c:773-816 | whichever branch absolute addressing takes, on success the cache is exactly the requested path |
| Caching.AbsoluteSelectIdempotent | src/libopensc/card-mcrd.c:773-816 | selecting an absolute path a second time, without the FCI, after a successful first time, sends nothing and changes nothing |
| Caching.CurrentDfPrefixIgnored | src/libopensc/card-mcrd.c:756-759 | a path with 3FFF in front is handled like the path without it |
| Caching.RelativeFromEmptyCachesFidTwice | src/libopensc/card-mcrd.c:880-898 | from an empty cache, an identifier both selects accept ends cached twice, as an EF |
| Caching.EmptyFileIdSelectsUnsetFid | src/libopensc/card-mcrd.c:856-870 | an empty identifier request with the FCI wanted selects, as an EF, the request buffer's unset identifier |
| Caching.AbsolutePathToEf | src/libopensc/card-mcrd.c:773-816 | from an empty cache, a path the card accepts to an EF is selected with one SELECT per component and cached, as an EF |
| Caching.ExamplePath | src/libopensc/card-mcrd.c:745-838 | 3F00/4100/4101 from an empty cache: MF, DF and EF selects, in that order |
| Caching.DownWithoutLoad | src/libopensc/card-mcrd.c:733-736 | a descent that fails, ends on an EF or ends on a cached DF sends nothing more and changes no cached records |
| Caching.DownLoadsDf | src/libopensc/card-mcrd.c:733-736 | a descent ending on an uncached DF loads its EF_Rule and EF_KeyD into its entry |
| SecEnv.MseP2 | src/libopensc/card-mcrd.c:1017-1028 | B8 exactly for deciphering, B6 exactly for signing, none otherwise |
| SecEnv.KeyFile | src/libopensc/card-mcrd.c:1035-1036 | the key file's wire bytes are the last two of the reference |
| SecEnv.MseData | src/libopensc/card-mcrd.c:1029-1047 | `83 03 80`, then five bytes in all when an SE number was found and three otherwise |
| SecEnv.MseDataIsKeyReference | src/libopensc/card-mcrd.c:1029-1045 | with an SE number, the data is one complete `83` object holding `80` and the key reference |
| SecEnv.MseDataWithoutKeyIsTruncated | src/libopensc/card-mcrd.c:1029-1047 | without one, the data announces three bytes and is not a complete object |
| SecEnv.RestoreCommands | src/libopensc/card-mcrd.c:1038-1043 | a RESTORE of the SE is sent exactly when the lookup found an SE other than 0 |
| SecEnv.StatusOf | src/libopensc/card-mcrd.c:985-994 | a transport error passes through; otherwise the status word decides |
| SecEnv.SetEnvExchange | src/libopensc/card-mcrd.c:1001-1084 | anything but SE 0, a known operation and a key file reference of two bytes or more: invalid arguments, with nothing sent; success ends with MSE SET |
| SecEnv.KeyExchange | src/libopensc/card-mcrd.c:1037-1074 | success ends with MSE SET of that P2 and data |
| SecEnv.SetEnvWithKeyRecord | src/libopensc/card-mcrd.c:1029-1074 | a KeyD record for the key file gives RESTORE (only when its SE is not 0), then MSE SET with `83 03 80` and its reference |
| SecEnv.RestoreFailureStops | src/libopensc/card-mcrd.c:1040-1042 | a refused RESTORE fails, and MSE SET is not sent |
| SecEnv.Clamp | src/libopensc/card-mcrd.c:1115-1117 | the first `min(len, outlen)` response bytes |
| SecEnv.SignExchange | src/libopensc/card-mcrd.c:1086-1139 | input over 255 bytes: invalid arguments, nothing sent; otherwise PERFORM first, at most two commands; a signature never exceeds the output buffer |
| SecEnv.SignatureClamped | src/libopensc/card-mcrd.c:1114-1118 | on 90 00 the signature is the first `min(len, outlen)` response bytes, after one command |
| SecEnv.GetResponseFollows | src/libopensc/card-mcrd.c:1120-1136 | after 60 61 exactly one GET RESPONSE follows the PERFORM SECURITY OPERATION |
| SecEnv.SignatureReturned | src/libopensc/card-mcrd.c:1114-1118 | a signature returned with 90 00, if it fits, is handed back whole after one command |
| SecEnv.GetResponseStatusIgnored | src/libopensc/card-mcrd.c:1120-1136 | after 60 61, the GET RESPONSE data is the signature whatever its status word |
| SecEnv.SignatureRefused | src/libopensc/card-mcrd.c:1138 | any other status fails with that status word's error |
| Mcrd.Driver.Init | src/libopensc/card-mcrd.c:177-201 | the cache starts at 3F00, not an EF, with the MF's special files loaded, and the private data valid |
| Mcrd.Driver.GetDfInfo | src/libopensc/card-mcrd.c:100-132 | an entry index exactly when there is a current path, and it is that path's entry; the path is unchanged |
| Mcrd.Driver.ReadRecords | src/libopensc/card-mcrd.c:247-272 | the records, outcome and commands of `Store.ScanRecords` |
| Mcrd.Driver.StopOutcome | src/libopensc/card-mcrd.c:259-263 | success on 6A 83, otherwise that reply's error |
| Mcrd.Driver.LoadSpecialFiles | src/libopensc/card-mcrd.c:224-315 | exactly `Caching.LoadSpecial`: outcome, new DF list and commands |
| Mcrd.Driver.ReadSpecialFiles | src/libopensc/card-mcrd.c:237-309 | the DF's entry holds what `Store.Load` reads; its outcome and commands |
| Mcrd.Driver.ReadRuleFile | src/libopensc/card-mcrd.c:240-272 | on failure, what the load returns; otherwise, the EF_Rule records scanned after an accepted select |
| Mcrd.Driver.ReadKeyD | src/libopensc/card-mcrd.c:277-309 | the KeyD half of the load: its outcome, its records in the DF's entry, its commands |
| Mcrd.Driver.DoSelect | src/libopensc/card-mcrd.c:616-667 | one SELECT; the result and file as `Selection.SelectAnswer` judges the reply; the DF list touched only by a short ARR reference |
| Mcrd.Driver.SelectPart | src/libopensc/card-mcrd.c:671-693 | the same for one identifier, with 3F00 always selected as MF |
| Mcrd.Driver.SelectDown | src/libopensc/card-mcrd.c:700-737 | the outcome, new state, commands and file of `Caching.Down` |
| Mcrd.Driver.DescendPath | src/libopensc/card-mcrd.c:710-736 | the loop gives exactly `Selection.Descend`: path extended by what was selected, the file decoded from the last FCI |
| Mcrd.Driver.DescendPrefix | src/libopensc/card-mcrd.c:710-732 | every component but the last selected as a DF; stops at the first refusal or the full cache |
| Mcrd.Driver.EnterDf | src/libopensc/card-mcrd.c:726-733 | one DF select; the identifier is appended exactly when accepted, and otherwise the card's error is returned |
| Mcrd.Driver.SelectLast | src/libopensc/card-mcrd.c:718-731 | `Selection.LastStep` for the last component |
| Mcrd.Driver.SelectRoot | src/libopensc/card-mcrd.c:764-772 | exactly `Caching.SelectMf` |
| Mcrd.Driver.SelectRelative | src/libopensc/card-mcrd.c:817-835 | exactly `Caching.Relative` |
| Mcrd.Driver.SelectAbsolute | src/libopensc/card-mcrd.c:773-816 | exactly `Caching.Absolute` |
| Mcrd.Driver.SelectFileByPath | src/libopensc/card-mcrd.c:745-838 | exactly `Caching.ByPath` |
| Mcrd.Driver.SelectFileByFid | src/libopensc/card-mcrd.c:840-901 | exactly `Caching.ByFid` |
| Mcrd.Driver.DecodeFids | src/libopensc/card-mcrd.c:952-955 | the loop decodes exactly `Selection.DecodePath` |
| Mcrd.Driver.SelectFile | src/libopensc/card-mcrd.c:905-980 | exactly `Caching.SelectFile`, and the private data stays valid |
| Mcrd.Driver.ProcessFcp | src/libopensc/card-mcrd.c:475-612 | the file becomes the FCP decoded into it; the ACL result of its ARR reference |
| Mcrd.Driver.ProcessArrRef | src/libopensc/card-mcrd.c:375-472 | exactly `Caching.AclOf`; the DF list is looked up only for a one-byte reference |
| Mcrd.Driver.GetSeNumFromKeyd | src/libopensc/card-mcrd.c:322-372 | exactly `KeyD.SeNumFromRecords` over the current DF's key records |
| Mcrd.Driver.RestoreEnvironment | src/libopensc/card-mcrd.c:985-994 | one RESTORE of that SE, and its status |
| Mcrd.Driver.SetSecurityEnv | src/libopensc/card-mcrd.c:1001-1084 | exactly `SecEnv.SetEnvExchange` over the current DF's key records |
| Mcrd.Driver.SetKeyEnv | src/libopensc/card-mcrd.c:1033-1074 | exactly `SecEnv.KeyExchange` with the key's lookup |
| Mcrd.Driver.SendSetSe | src/libopensc/card-mcrd.c:1053-1074 | one MSE SET with that data, and its status |
| Mcrd.Driver.ComputeSignature | src/libopensc/card-mcrd.c:1086-1139 | exactly `SecEnv.SignExchange` |

## Left out

- READ RECORD is modelled for record numbers 1 to 254, the range ISO/IEC 7816-4 gives record numbers. The C loop has no bound, so a card that returned records forever would not stop it. The model ends the scan, successfully, after record 254 (`Store.MaxRecno`).
- Buffer sizes are not modelled:
  - the 200-byte READ RECORD buffer;
  - `SC_MAX_APDU_BUFFER_SIZE`;
  - the Le of 0x80 on GET RESPONSE.
- Response data is taken as the card returns it.
- On a successful AID select without a file, `do_select` empties the library's `card->cache.current_path` (lines 644-645). That cache belongs to the library, not to the driver, and is not modelled.
- `sc_lock` and `sc_unlock` in `mcrd_set_security_env` are not modelled. Past the `se_num` check, the SE number is always 0, so that code never runs.
- Not modelled, since none changes a result:
  - debug output, hex dumps and `log_errors`;
  - out-of-memory failures;
  - `clear_special_files` freeing memory (its effect, emptying the entry, is modelled);
  - the RSA algorithm registration in `mcrd_init`.
- `mcrd_match_card`, `mcrd_finish` and the driver operations table are not part of this model. The guard of `mcrd_finish` is inverted (lines 207-208 return at once for any card), so its teardown never runs. The teardown frees memory and changes nothing the model covers.
- `sc_asn1_find_tag` and `sc_asn1_read_tag` are not part of this model. `Tlv.FindTag` and `Tlv.ReadObject` stand in for them:
  - one-byte tags;
  - short lengths and `81`/`82` long lengths;
  - a value must fit in the buffer.
- `sc_check_sw` is not part of this model. `Apdu.CheckSw` stands in for it:
  - 90 00 is success;
  - 6A 82 is "file not found";
  - every other status word is an error that carries it.
- The C `assert`s are taken as compiled out. In particular, `get_df_info` also runs when the cache ends on an EF:
  - from `process_fcp`, through `process_arr`;
  - from `get_se_num_from_keyd` (line 336), called by `mcrd_set_security_env`.

  Either way, it then creates an entry keyed by the EF's path. `Caching.FcpTouch` and `Mcrd.Driver.SetSecurityEnv` (through `Caching.Touched`) reproduce this.
- Selection.SelectAnswer: when a file is wanted, the FCP is decoded only if it is complete. This is the corrected form of the check at line 657; "## Findings" gives the bug. The C check `resp[1] <= resplen` also passes FCIs that are one or two bytes short. For those, `process_fcp` decodes stale buffer bytes past the response. The model instead answers `FcpOutOfRange` and decodes no field. For example, `6F 04 83 02 41` gives the C a file identifier that takes a stale byte, but gives the model a blank file.
- Mcrd.Driver.DoSelect: it runs the same corrected check, through `Selection.SelectAnswer`. For a reply one or two bytes short, it hands back a blank file; the C fills the file from stale bytes. A one-byte reply `6F` is treated the same way; the C then takes its length from a stale `resp[1]`.
- With a file wanted, an empty SELECT response is treated as not starting with 6F. The C code reads the stale first byte of its buffer.
- At lines 865-868, `select_file_by_fid` reads the first identifier of a path buffer it never filled. The model takes that value as the parameter `unsetFid`.
- `Fcp.File`: a fresh file's fields are all zero, `sc_file_new` is not part of this model, and only the fields the decoder sets are modelled.
- `Arr.ProcessArr`: the driver only logs what it recognises. The model returns the recognised items as a list instead of printing them.

## Findings

| source | as written | input that shows it | evidently intended | confidence | as-written member | corrected member |
|---|---|---|---|---|---|---|
| src/libopensc/card-mcrd.c:657 | `resp[1] <= resplen`: the FCP length is compared with the whole response, 6F header included | response `6F 02 83`: two FCP bytes are announced, one is present, and `process_fcp` reads one byte past the data | `resp[1] + 2 <= resplen`: the FCP must fit after the two header bytes | not executed | Selection.FciLengthAsWrittenOverruns | Selection.FcpBodyRoundTrip |
