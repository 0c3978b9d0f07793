# Verified model of the honeypots' wire codecs, sessions and log filter

The repository emulates network servers and logs what clients try. This project models, in Dafny, the parts it
writes by hand: the decoders and encoders of its wire formats, the per-connection state machines around them, the
timestamp arithmetic of NTP, and the log filter that every record passes on its way to the terminal and the file.
It proves what each of them does on every input: which messages come back exactly, which do not, and why.

Each file models one source file of `honeypots/` as one module; `Prelude.dfy` holds the Python operations they share
(slices with clamped bounds, `find`, byte orders, exclusive or on integers). Loops that update variables are methods
with invariants, objects whose methods update fields are classes, and expressions are functions. A method is tied to
a function by its contract, and the lemmas about that function are the results.

External functions are parameters: SHA-1 (`H`, 20 bytes of output), DES under the fixed challenge (`des`), strict
UTF-8 decoding (`utf8`, None for an error; `Prelude.Strict` says what it does), text for comparison (`text`), JSON
dumping (`dumps`, never the empty text), the clock (`Env`, `time`). A connection is the list of messages it receives,
with the bytes it sends, the entries it logs and whether it is closed as fields. An exception that stops a decoder is
`None`.

## What the proofs found

- IPP: the attribute loop stops ten bytes before the end, because its bound is a length and its index a position. All
  records of a request come back if and only if the name, the value and the data after the last record have at least
  six bytes together (`Ipp.RoundTripIsComplete`). Every broken header is answered with the success status, and the
  reply repeats the request id only when five bytes of the request are equal (`Ipp.ReplyEchoesId`). Which byte strings
  make the attribute loop fail is stated without the loop (`Ipp.ScanSucceedsExactly`).
- Log filter: exactly which filters keep a dropped record dropped (`Helper.DroppedForGood`), and which keep an accepted
  one accepted (`Helper.AcceptedForGood`), for all messages and chains of destinations. Disjoint old and new names
  suffice for the first when "server" is not a new name or its suffix is kept (`Helper.RejectedForever`), but not alone
  (`Helper.DisjointIsNotEnough`), and they are not necessary: without options, what matters is whether every name stays
  what one pass made it (`Helper.TablesDropForGood`).
- TDS: the error reply counts code points where the format counts code units, so it is read back exactly when both
  strings stay in the BMP. A password loses every "Z", and comes back exactly when it has none and all its code units
  are in 1..255. A user name comes back exactly when it is ASCII without NUL: its UTF-16 bytes are decoded as UTF-8.
- LDAP: a bind is misread when its message id holds the bytes of the version field (3, 259, 131331 and some of four
  bytes) and when the length of its user name is in a long form, as from 128 bytes on it must be; only names that repeat
  the bytes in front of them escape (`Ldap.BindRoundTrip`, `Ldap.PrintableName`). A password with a one-byte long form
  is right only when it is 129 times the byte 0x81.
- PostgreSQL: the binary length is decoded as UTF-8 with the rest of the message, so every startup message of 128 to
  255 bytes raises and is never logged in, and so is every password message with such a length (`Postgres.HonestLogin`,
  `Postgres.LongStartupIsLost`).
- MySQL: a word list read from a file holds text, on which the search stops, so it never recognizes a password. Words
  are stripped of newlines before the search, so a password with one at its start or end is recognized only through
  another word with the same scramble.
- VNC: an unknown response is logged as the text "None", and succeeds when that is the configured password.
- DHCP: pad and end are read as tags, with the exact difference from RFC 2132 in `Dhcp.StandardIsFound`. Nothing calls
  the reply encoder; it is modelled all the same, and the server's own parser reads it back.

## Model

| member | source | states |
|---|---|---|
| Ipp.ParseAttributes | honeypots/ipp_server.py:244-277 | the attribute loop, with its length bound and its early exits on errors, returns the attributes and the status of the recursive scan that the lemmas below are about |
| Ipp.CountedIsWhole | honeypots/ipp_server.py:324-333 | a two-byte length and its string, when they end inside the data, occupy exactly the bytes that encode them: only a string at the end can be cut short |
| Ipp.BodyIsWhole | honeypots/ipp_server.py:252-261 | a body followed by a readable tag byte was not truncated: its bytes are the encoding of the name and value that were read, for string, integer and boolean tags |
| Ipp.PassIsWhole | honeypots/ipp_server.py:251-266 | a pass that reaches the next tag consumed a whole body and that tag, and added its field to the attributes |
| Ipp.ScanIsSound | honeypots/ipp_server.py:249-277 | on every byte string, a run that ends in success consumed exactly the encoding of the records it read, each chained to the next by its tag, and the attributes are those records folded; reading stays inside the data and stops at the first group tag or with the first record that ends behind the bound |
| Ipp.FailedScanIsSound | honeypots/ipp_server.py:249-277 | every failing run read complete records from its start, none followed by a group tag, and then, still in front of the bound, found no body, a value without an attribute to add it to, or a body with no tag behind it; its attributes are the records folded, with that last body in the third case |
| Ipp.ScanSucceedsExactly | honeypots/ipp_server.py:249-277 | for all tags and bytes, the loop succeeds if and only if the bytes start with the encoding of a list of records that chain, fold and stop there |
| Ipp.ExplainedSucceeds | honeypots/ipp_server.py:249-277 | that list is unique: whatever records explain the bytes are those that the loop reads |
| Ipp.StartedIsExact | honeypots/ipp_server.py:249-250 | the number of records recovered is characterized from outside: record i is recovered iff its body starts before the loop bound |
| Ipp.ScanOfWire | honeypots/ipp_server.py:249-277 | scanning encoded string records succeeds from any position with any bound and yields exactly the records whose body starts before it, folded in order |
| Ipp.RoundTrip | honeypots/ipp_server.py:206-277 | for every request of string records after an eight-byte header, decoding succeeds and recovers exactly the records whose body starts before ten bytes from the end, values without a name going to the attribute before |
| Ipp.FoldKeepsCount | honeypots/ipp_server.py:262-265 | folding loses no value: the attributes hold one value per record |
| Ipp.RoundTripIsComplete | honeypots/ipp_server.py:249-250 | all records are recovered if and only if name, value and trailing data of the last total at least six bytes |
| Ipp.BuildResponse | honeypots/ipp_server.py:206-241 | the header reads in order, with a missing operation or group and short data leaving no response but the success status |
| Ipp.RequestRoundTrip | honeypots/ipp_server.py:211-231 | a valid request comes back with its version, operation, request id, group and all its attributes |
| Ipp.BrokenHeaderSucceeds | honeypots/ipp_server.py:207-241 | the status is a failure exactly when the header is good, a value tag follows and no list of records explains the bytes behind it; every broken header keeps the success status |
| Ipp.ReportIs | honeypots/ipp_server.py:206-232 | what is reported of every request: nothing exactly for a broken header, else its five fields and the attributes behind a value tag |
| Ipp.OperationsAre | honeypots/ipp_server.py:17-120 | the operation codes of the table, one by one |
| Ipp.GroupTagsAre | honeypots/ipp_server.py:121-133 | the group tags of the table, one by one |
| Ipp.SyntaxesAre | honeypots/ipp_server.py:134-159 | the value tags of the table, one by one |
| Ipp.SignedIs | honeypots/ipp_server.py:320-321 | a single byte is read as the number in -128..127 that differs from it by a multiple of 256 |
| Ipp.AttributesDictToBytes | honeypots/ipp_server.py:336-344 | the encoder loop writes the group tag, every entry with its value tag and lengths, and the end tag, or fails exactly for an unknown name or a value that is too long |
| Ipp.DictRoundTrip | honeypots/ipp_server.py:336-344 | behind any eight-byte header the server's own decoder reads back every entry of every dictionary that can be written, in order |
| Ipp.ReplyEchoesId | honeypots/ipp_server.py:280-288 | the reply carries the request id if and only if bytes 3 to 7 of the request are all equal: the slice starts one byte early |
| Ipp.ReplyHeader | honeypots/ipp_server.py:281-284 | every reply has a supported version, the request's exactly when that is supported, and its status code is zero exactly for success |
| Ipp.ReplyStart | honeypots/ipp_server.py:281-284 | the first four bytes of the reply: one of the four supported versions repeated or 2.0, and 0x0000 or 0x0400 |
| Ipp.AttributesAre | honeypots/ipp_server.py:336-344 | the attributes of the reply, byte by byte |
| Ipp.ReplyIsPlaced | honeypots/ipp_server.py:281-288 | the attributes of the reply stand behind its eight-byte header if and only if the request has at least seven bytes |
| Ipp.ReplyDecodes | honeypots/ipp_server.py:280-288 | the two attributes of a reply that has them in place are found by the decoder |
| Ipp.ReplyToRequest | honeypots/ipp_server.py:206-288 | the whole reply to every request: its status is an error exactly for a good header with attributes that no list of records explains, and version, id and attributes are as above |
| Helper.SerializedIsPlain | honeypots/helper.py:213-224 | serialization keeps the nesting, keys and lengths of every finite object and leaves only strings without NUL |
| Helper.SerializedIsWritten | honeypots/helper.py:213-224 | what every object is written as, leaf by leaf: a number keeps its text, and strings, decoded bytes and reprs keep every character, with a space for NUL; nothing else is the result |
| Helper.PlainIsFixed | honeypots/helper.py:213-224 | the fixed points of serialization are exactly the plain objects |
| Helper.SerializeTwice | honeypots/helper.py:213-224 | serializing twice is serializing once |
| Helper.RenamedKeys | honeypots/helper.py:87-89 | for every table, overlapping or not, the keys after the in-place loop are exactly the names that the keys before it end with when each is followed through the table |
| Helper.RenamedValue | honeypots/helper.py:87-89 | for every table, each value after the loop is that of a key that ends with its name |
| Helper.RenameIsImage | honeypots/helper.py:87-89 | with disjoint, distinct and fresh names the in-place loop is a simultaneous renaming: every value survives under its new name, the keys are exactly the image and none collide |
| Helper.RenameLeavesNoSource | honeypots/helper.py:87-89 | with disjoint names no old key is left after the loop |
| Helper.RenameTwice | honeypots/helper.py:87-89 | with disjoint names a second pass changes nothing |
| Helper.LogRecord.SerializeMessage | honeypots/helper.py:72-98 | the filter rewrites the record's message in place and returns the object to write, None for a dropped record, or the error object for an exception, in the source's order of tests |
| Helper.LogRecord.ParseRecord | honeypots/helper.py:101-119 | an empty object drops the record; a terminal pass and a file pass with dump_json_to_file replace the message by its JSON text, a database pass does not |
| Helper.CustomHandler.Deliver | honeypots/helper.py:283-290 | one pass of a handler writes what the filter left in the record, or nothing |
| Helper.CustomHandler.Emit | honeypots/helper.py:269-294 | the handler passes one record to the database, the terminal and, for syslog, the terminal again; each pass filters what the one before left |
| Helper.FileHandler.Emit | honeypots/helper.py:233-236 | the file handler is one more pass over the same record |
| Helper.Log | honeypots/helper.py:141-157 | the custom handler, which is added only for the database or the terminal, writes the chain of its destinations, and then the file handler one more pass over the message that it left; together they are one chain |
| Helper.ChainAppend | honeypots/helper.py:145-157 | a chain of destinations is the composition of its parts, the message of the record being all that is handed on |
| Helper.AcceptedIsText | honeypots/helper.py:94-118 | an accepted mapping reaches the terminal as its JSON text; every further destination, in any number, gets that text, quoted once more by each terminal and by dump_json_to_file |
| Helper.TextChain | honeypots/helper.py:76-118 | text passes any number of destinations, except that with remove_errors the first text that contains "error" reaches no destination from there on; without that option it reaches all |
| Helper.PassRejects | honeypots/helper.py:77-93 | whether a mapping is dropped does not depend on the destination, the clock or the dump, and a dropped one leaves the rewritten mapping in the record |
| Helper.DroppedForGood | honeypots/helper.py:77-93 | for every filter: a dropped mapping never reaches a later destination, for all messages and chains of any length, if and only if no required key can arrive only with the second pass and no value can be renamed to "server" while suffixes are stripped and another key is required; both conditions read the tables and options alone |
| Helper.DroppedByTables | honeypots/helper.py:77-93 | both conditions can be computed: only required keys and old names of the table need to be tried |
| Helper.TablesDropForGood | honeypots/helper.py:87-93 | without options, two tables never bring a dropped mapping back, whatever keys are required, if and only if every name is removed by one of two passes or stays what the first pass made it |
| Helper.SettledOldNames | honeypots/helper.py:87-89 | for that only the old names of the table need to be tried |
| Helper.DisjointDropsForGood | honeypots/helper.py:87-93 | disjoint names never let a required key arrive late, and let a pass fault only if "server" is a new name |
| Helper.DisjointIsNotEnough | honeypots/helper.py:83-93 | a concrete filter with disjoint, distinct and fresh names: a number renamed to "server" is dropped by the first pass and logged as an error by the second |
| Helper.AcceptedForGood | honeypots/helper.py:77-93 | for every filter: over destinations that leave the mapping in the record, every accepted mapping reaches all of them if and only if the filter accepts nothing, or its tables make no "error" key under remove_errors and no "action" under remove_init, and do not lose a required key in the next pass |
| Helper.AcceptedEverywhere | honeypots/helper.py:77-118 | without remove_errors the same condition is exact over chains of all kinds of destinations |
| Helper.RejectedForever | honeypots/helper.py:77-93 | with disjoint names and "server" not a new name, a mapping dropped once reaches no later destination, for any number of them |
| Helper.ChainedRenameResurrects | honeypots/helper.py:87-93 | a concrete rename chain that is not disjoint: the first pass drops the record and the second writes it |
| Helper.AcceptedKeys | honeypots/helper.py:90-95 | an accepted mapping has every key of contains, and no key of remove but a timestamp that is put back |
| Helper.AcceptedIsWritten | honeypots/helper.py:72-95 | the object written of an accepted mapping has, under each key that the table leads to and that is not removed, the text of a value whose key leads there, stripped where it is a server; and under timestamp the clock of this pass unless the mapping has its own |
| Helper.EraseIsErased | honeypots/helper.py:86 | removing "_server" cuts out the first occurrence and goes on behind it, until there is none |
| Helper.UnfilteredIsWritten | honeypots/helper.py:94-95 | without a filter every key is written with its text and a timestamp is added |
| Helper.FaultIsWritten | honeypots/helper.py:84-86 | a server that is no string, where suffixes are stripped, gives an object of the record's name and the exception |
| Helper.DroppedExactly | honeypots/helper.py:77-93 | exactly which mappings are dropped, in terms of options, keys and tables |
| Helper.OtherIsWritten | honeypots/helper.py:77-96 | a message that is no mapping is written as its text; remove_errors drops a string that contains "error" and a list that has it, and raises for other objects |
| Helper.ParsedExactly | honeypots/helper.py:101-119 | a pass keeps everything but the empty objects, and leaves the dump in the record for the terminal and for a file with dump_json_to_file |
| Helper.LeftInRecord | honeypots/helper.py:77-93 | what a pass over a mapping leaves in the record: the rewritten mapping with exactly these keys and values, or the mapping itself where it stops early |
| Helper.StopsAre | honeypots/helper.py:141-144 | the order of the destinations: database, terminal, and the terminal again for syslog, which alone adds no handler |
| Oracle.ParsePayload | honeypots/oracle_server.py:48-66 | the loop over the items assigns the three results and stops at the first exception, keeping what was assigned before |
| Oracle.GatherIsLast | honeypots/oracle_server.py:58-65 | over items that all split, each result is the value of the last item whose name has the wanted prefix, or None without one, among the items in front of the first wanted value that cannot be decoded; other values are never decoded |
| Oracle.SplitIs | honeypots/oracle_server.py:59 | an item is split at its first "=" and cannot be split exactly if it has none |
| Oracle.GatherStops | honeypots/oracle_server.py:58-66 | an item without "=" ends the loop, whatever stands behind it |
| Oracle.NoDescriptor | honeypots/oracle_server.py:53 | a packet without "(DESCRIPTION=" gives no results |
| Oracle.PrefixesExclude | honeypots/oracle_server.py:60-65 | a name starts with at most one of the three prefixes |
| Oracle.TokensOfTree | honeypots/oracle_server.py:55-57 | tokenizing a printed descriptor tree in front of any text yields exactly its leaves in preorder whose value is not empty and does not end in "=" |
| Oracle.MarkerDoesNotStraddle | honeypots/oracle_server.py:53 | no occurrence of the marker straddles the start of a descriptor |
| Oracle.ConnectIsTree | honeypots/oracle_server.py:53-54 | after any prefix without the marker, and before a NUL or the end, the text cut out is the printed tree |
| Oracle.DescriptorIsRead | honeypots/oracle_server.py:53-66 | for a packet with a well-formed descriptor tree rooted at DESCRIPTION, behind a prefix without the marker and in front of a NUL or the end, the items are the tree's surviving leaves and every result is last-wins over them, up to the first wanted value that cannot be decoded |
| Oracle.WantedIsRead | honeypots/oracle_server.py:53-66 | when everything can be decoded, each of the three results is the text of the last surviving leaf under its name, SERVICE_NAME, PROGRAM or USER |
| Mssql.ReplyIsPacket | honeypots/mssql_server.py:44-62 | a reply exists exactly when name, message, code and every nested length fit their fields, and is then the packet whose header and token lengths are its true lengths, though the header length is spliced into hexadecimal text |
| Mssql.DefaultsAreFilled | honeypots/mssql_server.py:34-62 | the caller's short name and message in the BMP are sent and read back, and where one is empty the default stands in for it |
| Mssql.LoginReply | honeypots/mssql_server.py:107 | the reply to a login is read back as error 18456, "Login Failed", from "R&Dbackup" |
| Mssql.TokenIs | honeypots/mssql_server.py:47-55 | the error token, byte by byte |
| Mssql.PacketIs | honeypots/mssql_server.py:56-62 | the packet around the token, byte by byte |
| Mssql.SurrogatesOf | honeypots/mssql_server.py:50 | beyond the BMP the two code units are surrogates that hold the code point less 0x10000 |
| Mssql.HexSplice | honeypots/mssql_server.py:61-62 | splicing hexadecimal digits 4 to 7 replaces the third and fourth byte and nothing else |
| Mssql.ReplyParses | honeypots/mssql_server.py:34-62 | an independent parser of sections 2.2.3.1, 2.2.7.10 and 2.2.7.6 of [MS-TDS], which checks every length, recovers error number, message and server name if and only if both strings stay in the BMP |
| Mssql.HandleLogin | honeypots/mssql_server.py:90-106 | the two credentials are cut out at their offsets and the password is revealed byte by byte after both replacements; short data or an undecodable user name raise |
| Mssql.RevealObscure | honeypots/mssql_server.py:102 | the decoding of one byte and the client's obfuscation undo each other |
| Mssql.RemovedBytes | honeypots/mssql_server.py:99 | the bytes removed from the obscured password stand for "Z" and NUL and for nothing else |
| Mssql.RecoveredBytes | honeypots/mssql_server.py:98-102 | of any byte string sent in obscured form exactly the bytes other than NUL and "Z" come back, in order |
| Mssql.RecoveredIsExact | honeypots/mssql_server.py:98-102 | a string of code units comes back unchanged if and only if all are in 1..255 and none is "Z" |
| Mssql.SeenIsAscii | honeypots/mssql_server.py:90-96 | a user name in UTF-16 without its zero bytes is its own UTF-8 encoding if and only if all its characters are in 1..127 |
| Mssql.LoginIsRecovered | honeypots/mssql_server.py:90-106 | for every record whose offset and length fields point at the two strings, the user name that is checked is the one sent if and only if all its characters are in 1..127; the password, when the user name can be decoded, is exact if and only if all its code units are in 1..255 and none is "Z" |
| Mssql.ClientRecord | honeypots/mssql_server.py:90-97 | a record that a client builds from its fields, with both strings where their offsets say, is such a record |
| Mssql.HandedOnAsAnother | honeypots/mssql_server.py:91-95 | the user name of the characters C3 and A9 is checked as the single character E9 |
| Mssql.StopsTheDecoder | honeypots/mssql_server.py:91-95 | the user name of the single character E9 raises |
| Ldap.OnlyTheIdClashes | honeypots/ldap_server.py:50 | in front of the version field its bytes occur only inside the message id field: no length, alone or with its neighbours, can be mistaken for it |
| Ldap.ClashingIds | honeypots/ldap_server.py:50 | the ids of one to four bytes that hold the version field, with or without their length byte, are 3, 259, 131331 and those of four bytes whose first or last three are 2, 1, 3 |
| Ldap.FirstMatch | honeypots/ldap_server.py:50 | the first match of every bind request is in the id for those ids and at the version field otherwise |
| Ldap.BindIsRead | honeypots/ldap_server.py:49-70 | a bind request whose id does not hold the version field and whose user name has a short length gives back its user name, and its password if that has a short or a two-byte length |
| Ldap.BindRoundTrip | honeypots/ldap_server.py:49-70 | every bind request, with an id of one to four bytes and lengths in short, one-byte or two-byte form, is decoded exactly if and only if its id does not hold the version field, its user name has a short length and its password survives its form, or else it has no password and a user name that repeats the bytes the decoder takes for its start |
| Ldap.LongNames | honeypots/ldap_server.py:53-57 | a user name in the one-byte long form survives only as 129 bytes 0x81, in the two-byte form only as 130 bytes alternating 0 and 130, and both without a password |
| Ldap.PrintableName | honeypots/ldap_server.py:49-70 | with a user name of printable ASCII the request is decoded exactly if and only if the id does not hold the version field, the user name has less than 128 bytes in short form and the password survives its form |
| Ldap.LongForm | honeypots/ldap_server.py:58-68 | with a one-byte long form the password of a request whose id and user name are read right is right if and only if it is 129 times 0x81, since that byte is taken for the length |
| Ldap.Connection.DataReceived | honeypots/ldap_server.py:72-82 | one message moves the state, decodes, answers or closes, as the session function says |
| Ldap.Connection.CheckLogin | honeypots/ldap_server.py:84-88 | credentials are checked unless both are empty |
| Ldap.SessionIsBounded | honeypots/ldap_server.py:72-82 | over every run exactly the first two messages are decoded and answered, and the connection is closed exactly from the third on |
| Ldap.TwoBinds | honeypots/ldap_server.py:49-88 | two binds in a row whose ids and lengths are read right are both decoded exactly, whatever follows, and an anonymous one is not checked |
| Ldap.EncodedBind | honeypots/ldap_server.py:49-70 | a bind for which the encoder's bytes are spelled out |
| Ldap.NoVersion | honeypots/ldap_server.py:50-51 | a message without the version field, or with it at the front, gives no credentials |
| Ldap.CutShort | honeypots/ldap_server.py:53-68 | a message that is cut short, or has another kind of authentication, gives the user name as far as it goes and no password |
| Ldap.AnswersAre | honeypots/ldap_server.py:72-80 | the answers of every run are result messages with code 50 for the message ids 1 and 2 |
| Dhcp.ParseOptions | honeypots/dhcp_server.py:55-74 | the byte loop computes the fold of the automaton |
| Dhcp.RunAppend | honeypots/dhcp_server.py:60-73 | running on two chunks is running on their concatenation |
| Dhcp.ZeroLengthAbsorbs | honeypots/dhcp_server.py:63-73 | after a zero length byte no further byte changes the state |
| Dhcp.RunIsTlv | honeypots/dhcp_server.py:55-74 | on every byte string the automaton computes recursive tag-length-value parsing with later options winning |
| Dhcp.OptionsRoundTrip | honeypots/dhcp_server.py:55-74 | encoded options with lengths 1..255 come back last-wins, whatever end byte, zero length or incomplete option follows |
| Dhcp.StandardIsFound | honeypots/dhcp_server.py:55-74 | on every byte string, compared with a parser that knows the pad and end options and empty values of RFC 2132: both find the same if and only if no pad or end is read as the tag of a whole option and what the standard finds behind the first such byte or empty value adds nothing new |
| Dhcp.OrdinaryFirst | honeypots/dhcp_server.py:55-74 | every byte string is ordinary options and a rest that does not start with one, so that comparison covers all input |
| Dhcp.EndIsRead | honeypots/dhcp_server.py:55-74 | behind the end option both agree if and only if the next byte, taken for a length, is zero or more bytes than follow, or there is none |
| Dhcp.DatagramReceived | honeypots/dhcp_server.py:76-82 | the hardware address is bytes 28 to 33, absent below 34 bytes, and the options are parsed from byte 240 |
| Dhcp.ReplyRoundTrip | honeypots/dhcp_server.py:19-53 | the reply keeps transaction id and hardware address in place, carries lease and server address and cookie, and is parsed back to exactly its six options |
| Dhcp.FixedIs | honeypots/dhcp_server.py:36-46 | the fixed fields of the reply, byte by byte |
| Ssh.MatchIsTheSequence | honeypots/ssh_server.py:69 | at most one prefix of a string is in the language of the expression, and greedy matching finds it |
| Ssh.SequenceBytes | honeypots/ssh_server.py:69-69 | an introduction, parameters, intermediate bytes and a final byte in the ranges of the expression are a sequence |
| Ssh.SequenceParts | honeypots/ssh_server.py:69-69 | every sequence is of that form |
| Ssh.PlainBytes | honeypots/ssh_server.py:69-69 | plain bytes are those that are not ESC and not in 0x80..0x9F |
| Ssh.CleanAfterPlain | honeypots/ssh_server.py:69-69 | bytes that cannot start a sequence are kept, and what follows them is cleaned on its own |
| Ssh.CleanOfSegments | honeypots/ssh_server.py:238-239 | text with complete sequences between plain segments is cleaned to the plain segments in order |
| Ssh.CleanIsSubsequence | honeypots/ssh_server.py:238-239 | cleaning only deletes bytes |
| Ssh.Channel.ReceiveLine | honeypots/ssh_server.py:222-245 | the loop receives, echoes and accumulates chunks; result, chunks consumed and bytes sent are those of the recursive reader |
| Ssh.ReadFrom | honeypots/ssh_server.py:222-245 | from any pending prefix: a line at the first complete prefix, end of input at the first empty or Ctrl-D chunk, a timeout when chunks run out, with exactly the echoes sent in each case |
| Ssh.LineIsFirstCompletePrefix | honeypots/ssh_server.py:222-245 | a line is returned after n chunks if and only if the first n are the first whose cleaned text ends in CR, LF or Ctrl-C with no end of input before; it is that text stripped, and the bytes sent are their echoes |
| Ssh.TypedLine | honeypots/ssh_server.py:222-245 | ordinary chunks and then 0x0D, 0x0A or 0x03 give a line after exactly that chunk: the typed text, with the 0x03, without the white space around it; what is sent is spelled out |
| Ssh.TypedEnd | honeypots/ssh_server.py:230-232 | ordinary chunks and then nothing or 0x04 end the input, and "^D" is sent |
| Ssh.EscapedChunk | honeypots/ssh_server.py:238-244 | any other chunk is cleaned if it has an 0x1B, and sent back if something is left |
| Ssh.KeptVerbatim | honeypots/ssh_server.py:238-244 | without ESC the line is the chunks as they came: the deletion of DEL has no effect |
| Ssh.StripIsExact | honeypots/ssh_server.py:245 | stripping removes exactly the white space at both ends |
| Mysql.HeaderIsExact | honeypots/mysql_server.py:55-59 | the three-byte length is the payload length modulo 2^24, so true exactly below 2^24 bytes |
| Mysql.ResponseLayout | honeypots/mysql_server.py:55-59 | sequence number and payload follow the length; a response is missing exactly when one does not fit |
| Mysql.GreetingIs | honeypots/mysql_server.py:29-44 | the greeting, part by part |
| Mysql.PayloadParses | honeypots/mysql_server.py:29-44 | an independent parser of the version 10 handshake takes any such payload apart into version, joined challenge and plugin |
| Mysql.SaltIsChallenge | honeypots/mysql_server.py:29-44 | the challenge a client finds in the greeting is the salt of the scramble search, and the header length is exact |
| Mysql.FrameIsParsed | honeypots/mysql_server.py:62-74 | every login frame with a NUL-free user name parses back to it and its scramble, and is good exactly for 20 bytes |
| Mysql.BrokenFrames | honeypots/mysql_server.py:62-74 | frames without a NUL give nothing, and frames that end at it give the user name only |
| Mysql.ScrambleIsAccepted | honeypots/mysql_server.py:79-83 | the expected scramble is one that a server storing only the double hash accepts, and the only one when the hash has no second preimage there |
| Mysql.Decode | honeypots/mysql_server.py:76-86 | the search loop returns the first word that matches unless text comes before it |
| Mysql.DecodeIsFirstMatch | honeypots/mysql_server.py:76-86 | over byte words the result is the first match, and None if and only if there is none |
| Mysql.TextWordsNeverMatch | honeypots/mysql_server.py:24-27 | a list read from a file holds text, and never recognizes anything |
| Mysql.Connection.DataReceived | honeypots/mysql_server.py:105-140 | one message adds one entry and one answer, or closes the connection outside state 1 |
| Mysql.HonestLogin | honeypots/mysql_server.py:29-140 | a client that scrambles any password with the salt, the challenge it was sent, succeeds if and only if its user name is the configured one and a listed word, stripped of newlines, has the same scramble, with no text in front of it; the entry then shows the first such word, and otherwise the scramble |
| Mysql.FoundIsListed | honeypots/mysql_server.py:76-86 | unless another word has the same scramble, a password is found if and only if it is a listed word stripped of newlines |
| Mysql.StrippedIsExact | honeypots/mysql_server.py:79 | stripping takes all newlines at both ends of a word and nothing else |
| Mysql.ListedPasswordSucceeds | honeypots/mysql_server.py:27-134 | a client with a listed password that has no newline at its ends, no text standing in front of it, always succeeds for the configured user |
| Mysql.BadFrame | honeypots/mysql_server.py:108-138 | a frame that is not good is logged as it was read and answered with too many connections |
| Mysql.CutFrame | honeypots/mysql_server.py:112-123 | a frame that ends behind a length of 20 is logged whole and denied |
| Mysql.NewlineIsLost | honeypots/mysql_server.py:79 | then a password that starts or ends with a newline is never found, even when it is listed |
| Mysql.SuccessIsEarned | honeypots/mysql_server.py:105-134 | every success is for the configured user and a scramble of a listed word |
| Rdp.GetValue | honeypots/rdp_server.py:29-40 | the scan skips zero bytes, stops at a double zero, fails at a zero that ends the data, and its result counts only if its length is half the given one |
| Rdp.ScanOfUnits | honeypots/rdp_server.py:31-37 | over code units below 256 the scan stops exactly at the first zero unit or the terminator |
| Rdp.ScanIs | honeypots/rdp_server.py:29-40 | the scan takes the bytes other than zero up to the first double zero, or up to the end, which must not be a zero |
| Rdp.ValueIs | honeypots/rdp_server.py:38-40 | they are kept exactly if there are half as many as the length says |
| Rdp.WideIsDropped | honeypots/rdp_server.py:29-40 | so nothing is kept of a string whose code units have no zero byte |
| Rdp.ShortPacket | honeypots/rdp_server.py:45-49 | nothing is read exactly of packets below 37 bytes |
| Rdp.ValueIsExact | honeypots/rdp_server.py:29-40 | a terminated string comes back unchanged if and only if all its code units are in 1..255, whatever follows |
| Rdp.ExtractCreds | honeypots/rdp_server.py:45-64 | the location runs over all five strings; short packets leave both results unassigned |
| Rdp.CredsRoundTrip | honeypots/rdp_server.py:45-64 | for every info packet user name and password come back unchanged if and only if their code units are in 1..255, whatever domain, shell and directory are |
| Vnc.EncodeWord | honeypots/vnc_server.py:37-42 | the loop reverses the eight key bytes through their binary text; a key byte above 255 raises |
| Vnc.KeyByteIsReversal | honeypots/vnc_server.py:41 | for bytes, reversing the digits of the binary text is reversing the bits arithmetically |
| Vnc.KeyByteTwice | honeypots/vnc_server.py:41 | on bytes the reversal undoes itself |
| Vnc.EncodeOfBytes | honeypots/vnc_server.py:37-42 | a word of 8-bit characters is always encoded, and its padded text can be read off the key |
| Vnc.EightIs | honeypots/vnc_server.py:38 | a word is stripped of newlines at its ends, cut to eight characters, and padded behind with NULs |
| Vnc.EightOfPlain | honeypots/vnc_server.py:38 | of a word without such newlines the first eight characters are taken |
| Vnc.EncodeIs | honeypots/vnc_server.py:37-42 | the challenge is encrypted under those characters with their bits reversed, and a word with one that needs more than a byte raises |
| Vnc.IndexIsDefined | honeypots/vnc_server.py:28 | the index is built exactly when every word can be encoded |
| Vnc.IndexIsSearch | honeypots/vnc_server.py:28-45 | for any cipher, looking up a response gives the last word with that encoding, and None if and only if no word has it |
| Vnc.PasswordIsRecognized | honeypots/vnc_server.py:28-45 | the configured password is recognized by its own encoding, whatever listed words collide with it |
| Vnc.SuccessIsExact | honeypots/vnc_server.py:79-84 | a login succeeds if and only if the response is the encoding of the configured password, or that password is the text "None" and no listed word has this encoding |
| Vnc.EntryShows | honeypots/vnc_server.py:79-94 | the entry shows the last word with the encoding of the response, or "None" without one, and is a success exactly when it shows the configured password |
| Vnc.Connection.HandleLogin | honeypots/vnc_server.py:79-94 | one entry is logged, with "None" for an unknown password |
| Vnc.Connection.DataReceived | honeypots/vnc_server.py:64-77 | one message moves the handshake, logs or closes, as the session function says |
| Vnc.LoginNeedsHandshake | honeypots/vnc_server.py:64-77 | over every run at most one login is logged, and one is if and only if the banner came, later the security type, and one more message after that |
| Vnc.RunIsJudged | honeypots/vnc_server.py:53-94 | over every run, the message behind the first security type behind the first banner is the one that is judged, whatever comes between and afterwards; the connection is then closed and has sent banner, security types and challenge |
| Vnc.RunSucceeds | honeypots/vnc_server.py:28-94 | over every run, a success is logged if and only if that message is the encoding of the configured password, or the password is the text "None" and no listed word has this encoding |
| Vnc.ThreeMessages | honeypots/vnc_server.py:53-77 | the run of banner, security type and response sends banner, security types and challenge, logs the response and closes |
| Vnc.HandshakeBytes | honeypots/vnc_server.py:53-77 | what is expected and sent in the handshake, byte by byte |
| Postgres.Connection.ReadDataCustom | honeypots/postgres_server.py:25-28 | the variables become the pairs of the split body |
| Postgres.Connection.ReadPasswordCustom | honeypots/postgres_server.py:30-32 | the password is added to the variables |
| Postgres.SplitOff | honeypots/postgres_server.py:27-32 | a NUL-free part in front of a NUL is split off whole |
| Postgres.PairOfPrinted | honeypots/postgres_server.py:27-28 | splitting printed settings and pairing with one shared iterator gives the last-wins map; the odd empty part at the end is dropped |
| Postgres.StartupRoundTrip | honeypots/postgres_server.py:27-28 | the text of every startup message, NUL-free settings behind eight characters, is read as their last-wins map |
| Postgres.StartupIsDecoded | honeypots/postgres_server.py:25-28 | a version 3.0 startup message below 32 kilobytes with NUL-free settings is read as their last-wins map if the last byte of its length is below 128, and raises if not, since the length is decoded as UTF-8 |
| Postgres.PasswordRoundTrip | honeypots/postgres_server.py:31-32 | the text of a password message, a NUL-free password behind five characters, gives back the password, whatever follows its NUL |
| Postgres.ShortTexts | honeypots/postgres_server.py:25-32 | texts too short for settings or a password give none |
| Postgres.PasswordIsDecoded | honeypots/postgres_server.py:30-32 | a password message below 32 kilobytes gives back its NUL-free password if the last byte of its length is below 128, and raises if not |
| Postgres.Connection.DataReceived | honeypots/postgres_server.py:45-65 | one message moves the state, reads, checks the login, closes or raises, as the session function says |
| Postgres.AtMostOneLogin | honeypots/postgres_server.py:45-65 | over every run there is at most one login, made only by the third message, with the user of the second and the password of the third |
| Postgres.SentIs | honeypots/postgres_server.py:45-54 | what is sent in every run: "N" for the first message, and the password request for a second one that can be decoded |
| Postgres.OtherThirdMessage | honeypots/postgres_server.py:55-65 | a third message of another type than 0x70, or without a user, closes without a login |
| Postgres.OtherStates | honeypots/postgres_server.py:55-65 | an empty third message raises, and in any other state a message only closes |
| Postgres.LengthsAreTrue | honeypots/postgres_server.py:25-32 | the messages compared carry their true lengths |
| Postgres.HonestLogin | honeypots/postgres_server.py:25-65 | a version 3.0 client with messages below 32 kilobytes and no NUL in settings and password is logged in, with its last user setting and its password, if and only if the last byte of both lengths is below 128; otherwise there is no login |
| Postgres.LongStartupIsLost | honeypots/postgres_server.py:25-65 | a run whose second message is a startup message with such a length, as all of 128 to 255 bytes are, logs nobody in, whatever follows |
| Postgres.LongUserIsLost | honeypots/postgres_server.py:25-65 | so a user name of 113 to 240 ASCII characters, sent alone, is never logged in |
| Ntp.PartsAreScaledTime | honeypots/ntp_server.py:23-26 | the two parts add up to the time scaled by 2^32 with the fraction dropped, its floor from 1900 on |
| Ntp.FitsWithinEra | honeypots/ntp_server.py:23-26 | the sum fits 64 bits if and only if the scaled time is above -1 and the time below 2^32 seconds |
| Ntp.UpperHalfIsSeconds | honeypots/ntp_server.py:28-31 | for every time, the upper half of the sum converts back to its whole seconds, except in the last 2^-32 of a second before 1900 |
| Ntp.Epoch1970 | honeypots/ntp_server.py:23-31 | the timestamps of 1970 and of a second and a half later, as numbers |
| Ntp.FractionIsSeconds | honeypots/ntp_server.py:30-31 | the second result is no fraction: it is the whole seconds since 1970 divided by 2^32 |
| Ntp.DatagramReceived | honeypots/ntp_server.py:33-74 | the version and mode are taken from the first byte, and any short datagram or value that does not fit leaves no reply |
| Ntp.VersionAndMode | honeypots/ntp_server.py:43-46 | version and mode are the middle and lower three bits of the first byte, and missing without one |
| Ntp.ReplyLayout | honeypots/ntp_server.py:43-64 | a reply is sent if and only if the datagram has at least eleven bytes, its fourth is at most 127 and the time is in range; it has 48 bytes, the copied fields and zeros in place, and the scaled time at bytes 40 to 47 |
| Ntp.ClientReadsClock | honeypots/ntp_server.py:23-64 | a client that reads the reply's timestamp gets the server's clock rounded down to seconds if and only if that is not before 1900 |
| Prelude.XorCancels | honeypots/mssql_server.py:102 | exclusive or on integers undoes itself, as both password decoders need |
| Prelude.LoneHighByte | honeypots/postgres_server.py:26 | a byte of 128 or more behind ASCII that is not followed by a byte continuing it is in no UTF-8 text, so strict decoding raises |
| Prelude.StrictExists | honeypots/postgres_server.py:26-31 | UTF-8 is injective, so there is a decoder that undoes it and accepts nothing else: the assumption on the parameter can be met |
| Prelude.LastWinsIsLast | honeypots/dhcp_server.py:70 | in a dictionary built from a list, a key has the value of its last entry |
| Prelude.StripIsExact | honeypots/mysql_server.py:79 | stripping one element takes all of it at both ends and nothing else |

## Left out

- Ipp.BuildResponse: the text of the response and `check_bytes` are not built; names and values stay bytes or numbers, which the log entry renders.
- Ipp.AttributesDictToBytes: names and values are ASCII, for which the length in characters that the code writes is the length in bytes.
- Helper.LogRecord.SerializeMessage: dictionaries are maps without an order, since the dump sorts keys; a message is a mapping, list, string, number, bytes or other object with its `repr`, and a mapping used as one field of two records is not shared.
- Helper.CustomHandler.Emit: no destination fails while it writes, so the outer error line is never produced; the disabled PostgreSQL branch is not modelled.
- Mssql.HandleLogin: the connection's state and the pre-login answer are not modelled; they are one test each.
- Ldap.BindIsRead: credentials stay bytes; decoding them for the log replaces invalid UTF-8.
- Ldap.BindRoundTrip: lengths have at most two length bytes; longer forms, which BER allows, are not modelled.
- Dhcp.DatagramReceived: option values stay bytes; the code maps each byte to one character.
- Ssh.Channel.ReceiveLine: the line stays bytes, before replacement decoding; the answers of `_respond` and the arguments of `_parse_args` depend on constant tables.
- Mysql.Connection.DataReceived: the two error packets are named, not spelled out; the final catch-all is never reached in the model.
- Vnc.EncodeWord: DES is a parameter; the code points of a word beyond 255 follow the code, and may collide or raise.
- Ntp.PartsAreScaledTime: times are exact reals, so rounding of floating-point numbers is not modelled.
- Postgres.HonestLogin: messages of 32 kilobytes or more are not compared, since their lengths can be several bytes of one character.
- Postgres.Connection.DataReceived: strict UTF-8 decoding is a parameter; an exception ends the session.
- Twisted, paramiko, impacket, scapy, TLS and sockets, and the RDP handshake of fixed packets.
- The SQLite tables, rotating files, syslog transport, argument parsing and process management.
- The other servers (Telnet, POP3, IMAP, SMTP, FTP, IRC, PJL, Memcache, SOCKS5, HTTP, SIP, SNMP, DNS, SMB, Elastic, Redis), which are thin overrides or repeat a lemma proved here.
