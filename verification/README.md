# Verified models of the Firebird/Vulcan utilities

Dafny models of the self-contained algorithms of this code base, each with proofs of what its callers rely on. One
module stands for one component, in a file of the same name:

| module | component |
|---|---|
| `TwoPhaseRecovery` | recovery of multi-database transactions in the `alice` utility, and the commit protocol it recovers |
| `RecordCompression` | the 16-bit-word run-length coder of `Stream` |
| `SegmentedStream` | the segmented byte stream `Stream` |
| `ScopeTable`, `TemplateExpansion` | the template expander of the build generator and its dynamically scoped value table |
| `CanonicalRecord` | the backup utility's canonical record codec over a buffer that grows |
| `LinkedList`, `StatementOwnership`, `SharedString` | the intrusive list, the reference counts of statements and result sets, shared string buffers |
| `DecimalText`, `Encode64`, `GlobMatch`, `PathRelocation` | scaled numbers as text, base-64 text, file name patterns, relative file names |
| `PaddedCompare`, `ColumnLayout` | comparison of blank-padded strings, the layout of a row buffer |

Code that changes state is modelled by classes and methods with loops; each is proved equal to a specification function
or predicate, and the properties are lemmas about that specification. Bytes are written as characters, or as numbers
where they are computed with. The whole project is checked by `dafny verify dfyconfig.toml`.

What is assumed of the surroundings:

- A database reports a committed part as committed or as a missing record, an unprepared part as a missing record, a
  rolled-back part as rolled back, a prepared part as limbo; any database may be unreachable at any time.
- The coordinator prepares, commits and rolls back its parts in list order and stops only by crashing.
- A stored field lies in its record, and its own length word or null byte lies within its declared length.
- Machine dependences are parameters: byte order and the order of the halves of a double, the word found just beyond the
  end of a record (the compressor may look at it), uninitialised fill bytes, the hash function, the size of a long, the
  path separator, the signs of characters.

One departure from a standard: section 4.9 of RFC 4506 fills opaque data up with zero bytes, where the encoder leaves
whatever was there; the decoder passes over them.

Where the code does not do what it seems meant to do, the model follows the code and the exact condition is proved:

- The advice of `TDR_analyze` goes against a visible outcome exactly when `TwoPhaseRecovery.Fooled` holds of the list;
  the protocol never produces such a list (`TwoPhaseRecovery.NeverFooled`).
- A record survives compression exactly when its length is 1 to 32767 and either even, or that of a record that does
  not end in a run (`RecordCompression.RoundTrip`); three equal words as five bytes are one that is lost
  (`RecordCompression.OddRunIsLost`).
- The null flags of a record lie clear of its fields exactly when `CanonicalRecord.FlagsClearExactlyWhen` says; the
  layouts that backup and restore make meet it (`CanonicalRecord.LaidOutIsClear`), and decoding restores every field
  and flag either way.
- A pattern takes its whole language exactly when it does not end in two stars (`GlobMatch.WholeLanguage`).
- A relative file name leads astray from another drive or share, from the root of a drive or share, and from a
  directory with a dotted piece behind the common part, unless the file name climbs far enough
  (`PathRelocation.RelocationExactlyWhen`).
- Columns overlap exactly when a column after the first has a boundary of zero (`ColumnLayout.ApartExactlyWhen`,
  `ColumnLayout.ZeroBoundaryOverlaps`), which takes a type of fixed size declared with length zero; descriptions that
  give such types their size are safe (`ColumnLayout.DescribedColumnsApart`).
- A string assigned to itself is lost (`SharedString.JString.Assign`), and a buffer in use is freed exactly when
  257 handles, or another 256 more, become one fewer (`SharedString.JString.GiveUp`, `SharedString.OneTooMany`).
- For scales below -18 the returned length counts the closing null (`DecimalText.Convert`).

## Model

| member | source | states |
|---|---|---|
| `TwoPhaseRecovery.Analyze` | src/alice/tdr.cpp:81-175 | the walk over the list computes the advice that the lemmas below speak of |
| `TwoPhaseRecovery.AdviceMeaning` | src/alice/tdr.cpp:81-175 | without the walk: no advice on a contradiction; otherwise the verdict of the last later part that says anything; otherwise unknown exactly when a database is unreachable |
| `TwoPhaseRecovery.AdviceAfterCommit` | src/alice/tdr.cpp:89-172 | by the visible states alone: behind a first part that has committed or is missing, no advice if another rolled back, else commit if another is committed, in limbo or missing |
| `TwoPhaseRecovery.AdviceAfterRollback` | src/alice/tdr.cpp:89-172 | behind one that rolled back, no advice if another committed, else rollback if another rolled back or is in limbo |
| `TwoPhaseRecovery.AdviceAfterUndecided` | src/alice/tdr.cpp:89-172 | behind one in limbo or unreachable, the last decided part counts, and behind one in limbo a missing part is a rollback |
| `TwoPhaseRecovery.AdviceIsNeverLimbo` | src/alice/tdr.cpp:462-471 | limbo is never an advice, so the branch that would offer either action is dead |
| `TwoPhaseRecovery.UnsafeExactlyWhenFooled` | src/alice/tdr.cpp:96-175 | on an arbitrary list the advice contradicts a visible outcome if and only if the first part is undecided and the others show both outcomes, or a missing record behind the last commit |
| `TwoPhaseRecovery.ArbitraryListsCanFoolIt` | src/alice/tdr.cpp:96-175 | one list of each such kind |
| `TwoPhaseRecovery.ReconnectParts` | src/alice/tdr.cpp:396-496 | the call settles exactly the parts seen in limbo whose reconnect is accepted, the way the weighed switches say, and reports an error exactly when an answer would be asked for |
| `TwoPhaseRecovery.Weigh` | src/alice/tdr.cpp:396-473 | the advice against the switches, with the operator asked where they disagree or nothing is advised |
| `TwoPhaseRecovery.SettleParts` | src/alice/tdr.cpp:475-484 | exactly the parts seen in limbo whose reconnect is accepted are settled, the way the switches say |
| `TwoPhaseRecovery.ReconnectMultiple` | src/alice/tdr.cpp:379-496 | a described transaction is settled that way; one without a description has its one part reconnected without advice |
| `TwoPhaseRecovery.Reconnect` | src/alice/tdr.cpp:854-902 | a reconnect commits or rolls back a prepared part and changes no other; a refusal, or neither switch, changes nothing and is an error |
| `TwoPhaseRecovery.ActFollowsAdvice` | src/alice/tdr.cpp:409-496 | whatever the switches, a part is settled only the way the advice points |
| `TwoPhaseRecovery.CommitsExactlyWhen` | src/alice/tdr.cpp:431-450 | parts are committed if and only if commit is advised, rollback is not asked for, and commit or two-phase recovery is |
| `TwoPhaseRecovery.RollsBackExactlyWhen` | src/alice/tdr.cpp:411-430 | and rolled back in the mirror image |
| `TwoPhaseRecovery.AsksExactlyWhen` | src/alice/tdr.cpp:401-473 | an answer is asked for, which is an error, if and only if nothing is advised, the switches go against the advice, or only prompting is asked for |
| `TwoPhaseRecovery.CallSettles` | src/alice/tdr.cpp:396-496 | what a call makes of each part, by what it shows, whether its reconnect is accepted, the advice and the switches |
| `TwoPhaseRecovery.StepKeepsInvariant` | src/alice/tdr.cpp:379-496 | every step of the coordinator, a crash, and every read and reconnect of any number of concurrent recoveries keep the protocol invariant |
| `TwoPhaseRecovery.RunKeepsInvariant` | src/alice/tdr.cpp:379-496 | so does every run |
| `TwoPhaseRecovery.Atomicity` | src/alice/tdr.cpp:379-496 | over every run no part is committed while another is rolled back or was never prepared |
| `TwoPhaseRecovery.NeverInconsistent` | src/alice/tdr.cpp:98-172 | over every run no recovery finds the states it has read inconsistent |
| `TwoPhaseRecovery.NeverFooled` | src/alice/tdr.cpp:81-175 | over every run no advice drawn from what a recovery has read goes against a visible outcome |
| `TwoPhaseRecovery.SettledForGood` | src/alice/tdr.cpp:854-902 | a committed or rolled-back part stays so, however the run goes on |
| `TwoPhaseRecovery.RecoveryCompletes` | src/alice/tdr.cpp:379-496 | with every database reachable and willing, one two-phase call leaves no part in limbo, unless all are, and then it changes nothing |
| `TwoPhaseRecovery.CallIsARun` | src/alice/tdr.cpp:379-496 | every whole call, with any switches, views and refusals, is one of the runs above |
| `RecordCompression.WriteLiteral` | src/IscDbc/Stream.cpp:250-258 | a literal goes out behind its negated length, up to where a run of three begins |
| `RecordCompression.WriteRun` | src/IscDbc/Stream.cpp:261-266 | a run goes out as its length and its word, as far as the word repeats |
| `RecordCompression.Compress` | src/IscDbc/Stream.cpp:238-271 | the compressor writes the stored form of the record and stays inside the `length + 5` bytes it allocates |
| `RecordCompression.StoredFromStoresGroups` | src/IscDbc/Stream.cpp:243-267 | the stored form is the groups of the record, one after the other |
| `RecordCompression.GroupsMeanTheRecord` | src/IscDbc/Stream.cpp:243-267 | the groups mean the words of the record |
| `RecordCompression.GroupsAreWellShaped` | src/IscDbc/Stream.cpp:248-266 | no literal holds three equal words in a row, and a run of another word than its last follows it; every run but the last group has at least three words and is followed by another word; no group is empty |
| `RecordCompression.CompressionCostsOneWord` | src/IscDbc/Stream.cpp:238-271 | the groups take at most one word more than the record; only the last can cost it |
| `RecordCompression.StoredForm` | src/IscDbc/Stream.cpp:254-266 | a run is stored as its number and its word, a literal as its negated number and its words |
| `RecordCompression.LengthComesFirst` | src/IscDbc/Stream.cpp:246 | the stored form begins with the length in bytes |
| `RecordCompression.EqualWordsTakeThree` | src/IscDbc/Stream.cpp:238-271 | three or more equal words are stored in three, however many they are |
| `RecordCompression.RunThenWords` | src/IscDbc/Stream.cpp:250-266 | a run in front of another word, word by word |
| `RecordCompression.FillRun` | src/IscDbc/Stream.cpp:303-305 | a pending run is written out in full behind what is there |
| `RecordCompression.DecodeSegment` | src/IscDbc/Stream.cpp:295-323 | one segment, with the run pending from the segment before it |
| `RecordCompression.Decompress` | src/IscDbc/Stream.cpp:273-328 | decompression of segments is decoding of their concatenation, wherever they are cut between words |
| `RecordCompression.RunsBeyondTheRecord` | src/IscDbc/Stream.cpp:313-321 | another run behind a complete record is ignored, and a run too long for the record is an error |
| `RecordCompression.LengthMustBePositive` | src/IscDbc/Stream.cpp:286-290 | so is a length that is not positive |
| `RecordCompression.LastGroupFromTheEnd` | src/IscDbc/Stream.cpp:248-256 | whether the last group is a run can be told from the last words of the record |
| `RecordCompression.LongRecordsAreLost` | src/IscDbc/Stream.cpp:242-276 | a length that does not fit a 16-bit word is never restored |
| `RecordCompression.RoundTrip` | src/IscDbc/Stream.cpp:238-328 | decompression restores the record if and only if the length is 1 to 32767 and, where it is odd, the record does not end in a run |
| `RecordCompression.OddRunIsLost` | src/IscDbc/Stream.cpp:289-321 | three equal words are lost as five bytes, and come back as six |
| `RecordCompression.SegmentedRoundTrip` | src/IscDbc/Stream.cpp:238-328 | decompressing any segments that the stored form is cut into gives the record under the same condition |
| `SegmentedStream.Stream.PutCharacter` | src/IscDbc/Stream.cpp:57-65 | the contents grow by the character |
| `SegmentedStream.Stream.PutSegment` | src/IscDbc/Stream.cpp:67-113 | the contents grow by the bytes, copied and split over segments or referred to where they are |
| `SegmentedStream.Stream.Spill` | src/IscDbc/Stream.cpp:89-106 | what does not fit the current segment goes into a new one |
| `SegmentedStream.Stream.PutString` | src/IscDbc/Stream.cpp:223-227 | the contents grow by the characters before the null |
| `SegmentedStream.Stream.PutWide` | src/IscDbc/Stream.cpp:365-401 | the contents grow by the low bytes of the characters |
| `SegmentedStream.Stream.PutStream` | src/IscDbc/Stream.cpp:359-363 | the contents grow by those of the other stream, which stays as it is |
| `SegmentedStream.Stream.Alloc` | src/IscDbc/Stream.cpp:214-221 | room for as many bytes is appended, and nothing before it changes |
| `SegmentedStream.Stream.Clear` | src/IscDbc/Stream.cpp:344-357 | the stream is empty afterwards |
| `SegmentedStream.Stream.GetSegment` | src/IscDbc/Stream.cpp:116-136 | exactly the slice asked for, clipped to the end |
| `SegmentedStream.Stream.GetSegmentLength` | src/IscDbc/Stream.cpp:427-439 | the bytes from the offset to the end of its segment, zero behind the last |
| `SegmentedStream.Stream.GetSegmentAt` | src/IscDbc/Stream.cpp:441-453 | where the byte at an offset is kept, with those behind it |
| `SegmentedStream.Stream.WriteOut` | src/buildgen/MakeGen.cpp:202-209 | the walk over offsets copies the whole contents and ends, whatever the segments |
| `ScopeTable.Table.Mark` | src/buildgen/TemplateExpansion.cpp:189-192 | a scope is opened and the level grows |
| `ScopeTable.Table.Push` | src/buildgen/TemplateExpansion.cpp:194-201 | the name is bound to the value in front of everything else; every chain stays the part of the stack in its slot |
| `ScopeTable.Table.Revert` | src/buildgen/TemplateExpansion.cpp:203-211 | exactly the values above the level are taken off, with the chains |
| `ScopeTable.Table.FindValue` | src/buildgen/TemplateExpansion.cpp:213-220 | the innermost binding of the name, or nothing if there is none |
| `ScopeTable.Table.RestoredExactly` | src/buildgen/TemplateExpansion.cpp:203-211 | a stack restored is a table restored, bucket by bucket |
| `ScopeTable.KeptIs` | src/buildgen/TemplateExpansion.cpp:203-211 | what a well-nested scope pushed is what reverting takes off, although the level is never lowered |
| `TemplateExpansion.WriteText` | src/buildgen/TemplateExpansion.cpp:124-158 | text goes out with its two entities replaced and other ampersands dropped |
| `TemplateExpansion.LoneAmpersand` | src/buildgen/TemplateExpansion.cpp:124-158 | an ampersand that begins no entity is dropped |
| `TemplateExpansion.EntityMeans` | src/buildgen/TemplateExpansion.cpp:136-150 | the two entities stand for their characters, whatever their last character |
| `TemplateExpansion.EscapedTextComesBack` | src/buildgen/TemplateExpansion.cpp:124-158 | text without ampersands, escaped and expanded, is the text |
| `TemplateExpansion.MakeGen.InScope` | src/buildgen/TemplateExpansion.cpp:100-108 | mark, push, expand, revert is evaluation under the extended environment, and leaves the stack as it was |
| `TemplateExpansion.MakeGen.Expand` | src/buildgen/TemplateExpansion.cpp:84-122 | an element expands to what the environment-passing evaluator says, and the stack is as before |
| `TemplateExpansion.MakeGen.ExpandChildren` | src/buildgen/TemplateExpansion.cpp:117-121 | so do the children, each followed by the text behind it |
| `TemplateExpansion.MakeGen.ExpandTag` | src/buildgen/MakeGen.cpp:304-312 | so does every kind of tag |
| `TemplateExpansion.MakeGen.ExpandFiles` | src/buildgen/MakeGen.cpp:314-337 | once for every selected project file, under its bindings |
| `TemplateExpansion.MakeGen.ExpandIf` | src/buildgen/MakeGen.cpp:349-401 | what lies before the first `else`, or behind it |
| `TemplateExpansion.MakeGen.ExpandTemplate` | src/buildgen/TemplateExpansion.cpp:166-174 | a whole expansion writes the evaluator's text and restores the stack and every bucket |
| `TemplateExpansion.ValueMeans` | src/buildgen/TemplateExpansion.cpp:86-96 | a value tag comes to the binding of the name it gives, or to nothing |
| `TemplateExpansion.TemplateMeans` | src/buildgen/TemplateExpansion.cpp:98-108 | a tag named after a template comes to the template, with the tag's attributes bound |
| `TemplateExpansion.LastBinding` | src/buildgen/TemplateExpansion.cpp:103-104 | each name is bound to the last attribute of that name, and no other name changes |
| `TemplateExpansion.PlainMeans` | src/buildgen/TemplateExpansion.cpp:110-121 | any other element comes to its text and its children in order, each with the text that follows it |
| `TemplateExpansion.NewlineSkipped` | src/buildgen/TemplateExpansion.cpp:112-113 | one leading newline is dropped, and nothing else |
| `TemplateExpansion.IfTrueMeans` | src/buildgen/MakeGen.cpp:351-365 | an `if` whose attributes all equal their parameters comes to its text and the children before the first `else` |
| `TemplateExpansion.IfFalseMeans` | src/buildgen/MakeGen.cpp:366-388 | otherwise to the text and the children behind it, or to nothing if there is none |
| `TemplateExpansion.FilesMean` | src/buildgen/MakeGen.cpp:314-337 | a files tag comes to the texts of the selected files, in their order |
| `TemplateExpansion.SelectedMeans` | src/buildgen/MakeGen.cpp:322-325 | which files are selected |
| `TemplateExpansion.FileBindingsMean` | src/buildgen/MakeGen.cpp:327-332 | each of the six names is bound to that property of the file, and no other name changes |
| `TemplateExpansion.TargetPathMeans` | src/buildgen/ProjectFile.cpp:122-137 | a file's own target path counts; otherwise it is made of the directory given, the name and the extension |
| `TemplateExpansion.FirstAttribute` | src/buildgen/TemplateExpansion.cpp:88-89 | an attribute's value is that of the first of its name |
| `TemplateExpansion.MoreFuel` | src/buildgen/TemplateExpansion.cpp:84-122 | the bound on nested templates does not change what an expansion comes to |
| `TemplateExpansion.AcyclicTemplatesExpand` | src/buildgen/TemplateExpansion.cpp:84-122 | templates that do not call each other in a cycle always expand |
| `CanonicalRecord.Xdr.ExpandBuffer` | src/burp/canonical.cpp:439-474 | a larger buffer with the same bytes so far |
| `CanonicalRecord.Xdr.PutBytes` | src/burp/canonical.cpp:361-395 | the bytes are appended, at once or one by one, across any number of relocations |
| `CanonicalRecord.Xdr.GetBytes` | src/burp/canonical.cpp:265-297 | the next bytes, and no others, are consumed; past the end the buffer grows and they are anything |
| `CanonicalRecord.Xdr.XdrLong` | src/remote/xdr.cpp:558-584 | a 32-bit integer in both directions, as in section 4.1 of RFC 4506 |
| `CanonicalRecord.Xdr.XdrShort` | src/remote/xdr.cpp:627-658 | a 16-bit integer travels sign-extended to 32 bits |
| `CanonicalRecord.Xdr.XdrOpaque` | src/remote/xdr.cpp:587-624 | bytes filled up to a multiple of four, as in section 4.9 of RFC 4506 but with arbitrary fill bytes |
| `CanonicalRecord.Xdr.XdrTwoLongs` | src/burp/canonical.cpp:178-199 | hypers, doubles, timestamps and quads as two longs, in the machine's order |
| `CanonicalRecord.Xdr.XdrVary` | src/burp/canonical.cpp:133-148 | a varying field: its length, then as many bytes |
| `CanonicalRecord.Xdr.XdrCString` | src/burp/canonical.cpp:150-159 | a null-terminated field: its length, its bytes, and the null put back |
| `CanonicalRecord.Xdr.XdrField` | src/burp/canonical.cpp:124-205 | each field type moves exactly its wire form, and decoding writes exactly the field's meaningful bytes |
| `CanonicalRecord.FirstPass` | src/burp/canonical.cpp:103-204 | all stored fields pass in order, and the count of how far the data reaches is kept |
| `CanonicalRecord.SecondPass` | src/burp/canonical.cpp:208-219 | the null flag of every stored field passes, each on an even offset behind the data |
| `CanonicalRecord.EncodeDecode` | src/burp/canonical.cpp:79-220 | encoding leaves the canonical form in the buffer; decoding it reads exactly those bytes and leaves exactly the decoded record; both return its length |
| `CanonicalRecord.DecodingRestores` | src/burp/canonical.cpp:79-220 | decoding what was encoded restores every stored field and every null flag, over any record and for any layout of the fields |
| `CanonicalRecord.DecodingSpares` | src/burp/canonical.cpp:79-220 | and leaves every other byte of the record alone |
| `CanonicalRecord.FieldWireKept` | src/burp/canonical.cpp:124-205 | what a field is encoded as depends only on its meaningful bytes |
| `CanonicalRecord.EncodingAgain` | src/burp/canonical.cpp:79-220 | a decoded record encodes to the same bytes again, whatever it was decoded into |
| `CanonicalRecord.ShortOfWire` | src/remote/xdr.cpp:627-658 | a 16-bit integer is on the wire as its value, extended by its sign to 32 bits |
| `CanonicalRecord.CountOfWire` | src/burp/canonical.cpp:151-154 | the length of a string is on the wire as it is |
| `CanonicalRecord.LongOfWire` | src/remote/xdr.cpp:558-584 | a 32-bit integer is on the wire as its value, most significant byte first |
| `CanonicalRecord.HyperOfWire` | src/remote/xdr.cpp:115-178 | of a 64-bit integer the high half comes first |
| `CanonicalRecord.EightByteWire` | src/burp/canonical.cpp:178-194 | timestamps, quads, blobs, arrays of any type and doubles as two longs, in the record's order, but for doubles on machines that have them the other way round |
| `CanonicalRecord.OpaqueSize` | src/remote/xdr.cpp:587-624 | opaque bytes go as they are, up to the next multiple of four |
| `CanonicalRecord.OneField` | src/burp/canonical.cpp:103-219 | a record of one field is its wire form and its null flag; a computed field is not stored |
| `CanonicalRecord.IntegersTravel` | src/burp/canonical.cpp:161-199 | two machines of any byte orders encode an integer field alike if and only if it has the same value on both |
| `CanonicalRecord.RecordsTravel` | src/burp/canonical.cpp:79-220 | a record decoded on another machine has the same values in its integer fields, and the same null flags |
| `CanonicalRecord.RecordsHaveCounterparts` | src/burp/canonical.cpp:79-220 | where no field or flag lies on another, every record of one machine has a sound counterpart on any other with the same canonical form |
| `CanonicalRecord.FlagSpot` | src/burp/canonical.cpp:208-219 | null flags lie behind the data and behind one another, within the record |
| `CanonicalRecord.DataEndsBehindLast` | src/burp/canonical.cpp:103-118 | for fields in order with lengths that tell, the data is counted to the end of the last one |
| `CanonicalRecord.FlagsLieTogether` | src/burp/canonical.cpp:208-219 | null flags are on even offsets, each right behind the one before |
| `CanonicalRecord.FirstFlagIsNext` | src/burp/canonical.cpp:208-219 | and the first right behind the data |
| `CanonicalRecord.FlagsClearExactlyWhen` | src/burp/canonical.cpp:103-118 | no null flag has a byte in common with a field if and only if every stored field ends at or before the even offset that follows the data as counted |
| `CanonicalRecord.LastFieldDecides` | src/burp/canonical.cpp:111-118 | for fields in order, if and only if the last one's length, rounded up to the next even offset, counts all its bytes |
| `CanonicalRecord.FieldsInOrderAreClear` | src/burp/canonical.cpp:108-118 | fields in order whose lengths count all their bytes are clear of the null flags |
| `CanonicalRecord.LayOut` | src/burp/backup.epp:1597-1691 | backup puts the stored fields one behind the other, and refuses exactly the lists with a type it does not understand |
| `CanonicalRecord.LaidOutIsClear` | src/burp/restore.epp:2328-2401 | in every layout made so, by backup or restore, the flags are clear of the fields |
| `CanonicalRecord.FlagCoversVarying2` | src/burp/canonical.cpp:117-118 | a list where they are not, which no caller makes: a last field of type `blr_varying2` |
| `CanonicalRecord.FlagCoversOutOfOrder` | src/burp/canonical.cpp:115-118 | another, with a varying field listed out of order |
| `CanonicalRecord.RecordWireIsWords` | src/remote/xdr.cpp:587-624 | the canonical form is a multiple of four bytes long |
| `LinkedList.LinkedList.Append` | src/IscDbc/LinkedList.cpp:100-125 | the object stands at the end |
| `LinkedList.LinkedList.AppendUnique` | src/IscDbc/LinkedList.cpp:127-149 | an object already there is not appended again; its position is returned |
| `LinkedList.LinkedList.DeleteItem` | src/IscDbc/LinkedList.cpp:194-221 | the first occurrence goes, the rest keeps its order and its nodes |
| `LinkedList.LinkedList.InsertBefore` | src/IscDbc/LinkedList.cpp:393-420 | the new object stands right before the first occurrence of the other, if there is one |
| `LinkedList.LinkedList.Clear` | src/IscDbc/LinkedList.cpp:151-172 | the list is empty and every node destroyed |
| `LinkedList.LinkedNode.Destroy` | src/IscDbc/LinkedList.cpp:84-98 | destroying a node destroys that node only |
| `LinkedList.LinkedList.Forward` | src/IscDbc/LinkedList.h:12-80 | forward traversal gives the contents |
| `LinkedList.LinkedList.Backward` | src/IscDbc/LinkedList.cpp:285-305 | backward traversal gives the contents reversed |
| `LinkedList.LinkedList.Count` | src/IscDbc/LinkedList.cpp:174-192 | the number of objects |
| `LinkedList.LinkedList.IsMember` | src/IscDbc/LinkedList.cpp:339-358 | whether the object is there |
| `StatementOwnership.Statement.CreateResultSet` | src/IscDbc/IscStatement.cpp:56-62 | a new result set holds the statement and ends its list |
| `StatementOwnership.Statement.DeleteResultSet` | src/IscDbc/IscStatement.cpp:158-161 | it leaves the list, and every other result set stays |
| `StatementOwnership.Statement.DropReference` | src/IscDbc/IscStatement.cpp:123-132 | the last reference destroys the statement, and only the last |
| `StatementOwnership.ResultSet.Close` | src/IscDbc/IscResultSet.cpp:132-142 | it is detached once; doing so again does nothing; the statement goes if nothing else holds it |
| `StatementOwnership.ResultSet.Release` | src/IscDbc/IscResultSet.cpp:46-52 | the last reference closes and destroys the result set once |
| `StatementOwnership.Statement.ClearResults` | src/IscDbc/IscStatement.cpp:223-228 | every open result set is closed exactly once, although the list shrinks under the iteration |
| `StatementOwnership.Statement.Close` | src/IscDbc/IscStatement.cpp:64-68 | the use count stays owners plus open result sets; the sole owner's close closes them all and then destroys the statement exactly once |
| `SharedString.JString.GiveUp` | src/IscDbc/JString.cpp:305-313 | whatever the number of handles, the count is that number modulo 256 afterwards, and a buffer still in use is freed if and only if they were more than one and one more than a multiple of 256 |
| `SharedString.JString.Join` | src/IscDbc/JString.cpp:72-73 | whatever the number of handles, one more is counted modulo 256 |
| `SharedString.OneTooMany` | src/IscDbc/JString.cpp:59-74 | 256 copies of a string and the end of the last one leave the string with a freed buffer |
| `SharedString.JString.Release` | src/IscDbc/JString.cpp:292-314 | the count stays the number of handles, and a buffer is freed exactly when its last handle goes |
| `SharedString.JString.Copy` | src/IscDbc/JString.cpp:59-74 | the copy reads the same; no other handle is touched |
| `SharedString.JString.Assign` | src/IscDbc/JString.cpp:215-235 | the string reads what the source read, and nothing when it is the source; no other handle is touched |
| `SharedString.JString.Append` | src/IscDbc/JString.cpp:92-121 | the string has a buffer of its own with the text joined; other handles to the old buffer read as before |
| `SharedString.JString.SetString` | src/IscDbc/JString.cpp:439-446 | the string has a buffer of its own with the text; other handles read as before |
| `SharedString.JString.Destroy` | src/IscDbc/JString.cpp:76-90 | a destroyed handle is counted nowhere |
| `SharedString.NoneDangles` | src/IscDbc/JString.cpp:292-314 | no handle points to a freed buffer |
| `SharedString.Plus` | src/IscDbc/JString.cpp:273-290 | the sum is a new string; the operand and all others read as before |
| `DecimalText.Convert` | src/IscDbc/Value.cpp:901-955 | the digits written last to first are the number with exactly the scale's decimals, its sign and no leading zeros |
| `DecimalText.ConvertToQuad` | src/IscDbc/Value.cpp:620-648 | the loop computes the reading that the lemmas below speak of |
| `DecimalText.MeaningOfText` | src/IscDbc/Value.cpp:620-648 | for every text that is not refused, the number is that of its digits, negative if there is a minus, and the divisor is ten to the number of digits behind the first point |
| `DecimalText.IgnoredAnywhere` | src/IscDbc/Value.cpp:638-642 | a plus sign, a separator or white space changes nothing, wherever it stands |
| `DecimalText.SeparatorIsNoPoint` | src/IscDbc/Value.cpp:638-639 | a number with a separator is read as without it |
| `DecimalText.RefusedExactlyWhen` | src/IscDbc/Value.cpp:628-645 | a text is refused if and only if one of its characters has no place in a number |
| `DecimalText.ShownWithPoint` | src/IscDbc/Value.cpp:926-952 | with decimals there is one point with exactly as many digits behind it, and nothing or no leading zero in front of it |
| `DecimalText.ShownWhole` | src/IscDbc/Value.cpp:926-952 | without, the sign and the digits, with no leading zero |
| `DecimalText.RunsOut` | src/IscDbc/Value.cpp:930-935 | the digit loop stops exactly when every digit is written |
| `DecimalText.RoundTrip` | src/IscDbc/Value.cpp:620-648 | reading what was written gives the number back, with ten to the scale as divisor, for every value and scale; zero, negative scales and refused scales as the code has them |
| `Encode64.Initialize` | src/XLoad/XDump.cpp:64-94 | the two tables undo each other |
| `Encode64.DigitsInOrder` | src/XLoad/XDump.cpp:64-94 | the sixty-four digits are these, in this order |
| `Encode64.Encode` | src/XLoad/XDump.cpp:317-364 | the register loop writes one digit for every six bits, a break after every full line, and the padding |
| `Encode64.SextetIsGroup` | src/XLoad/XDump.cpp:332-342 | digit after digit, these are the six-bit groups of the input, most significant bit first |
| `Encode64.RoundTrip` | src/XLoad/XDump.cpp:317-364 | a decoder with a lookup table gives the bytes back, for every input and line width |
| `Encode64.TableRoundTrip` | src/XLoad/XDump.cpp:64-94 | so it does with the table that is filled in |
| `Encode64.BreaksAreEven` | src/XLoad/XDump.cpp:343-347 | a line break stands after every `count` digits and nowhere else |
| `Encode64.NoBreaks` | src/XLoad/XDump.cpp:343-347 | without a width there is no line break, and the text is the digits |
| `Encode64.StarsAtTheEnd` | src/XLoad/XDump.cpp:350-357 | two stars behind one byte of three, one behind two, at the end and nowhere else |
| `Encode64.FoursForThrees` | src/XLoad/XDump.cpp:350-357 | digits and padding are four for every three bytes begun |
| `GlobMatch.Match` | src/VSRelo/ScanDir.cpp:118-137 | the recursive search with its loop decides the matching predicate |
| `GlobMatch.NothingElse` | src/VSRelo/ScanDir.cpp:118-137 | only names in the language of the pattern are accepted |
| `GlobMatch.Accepted` | src/VSRelo/ScanDir.cpp:120-128 | exactly which: all of the language, but two or more stars at the end want one more character |
| `GlobMatch.WholeLanguage` | src/VSRelo/ScanDir.cpp:120-128 | the whole language is accepted if and only if the pattern does not end in two stars |
| `GlobMatch.ShortestRefused` | src/VSRelo/ScanDir.cpp:120-128 | the shortest name in the language of such a pattern is refused |
| `PathRelocation.RewriteFilename` | src/VSRelo/Relo.cpp:210-238 | the two loops write a step up for every separator behind the last common one, then the rest of the path |
| `PathRelocation.RelocationExactlyWhen` | src/VSRelo/Relo.cpp:210-238 | on a platform with slashes or with drives and shares, the relative name leads where the file name does, up to the case of letters, if and only if both are on one volume, and the target is the nameless root, or a directory whose pieces behind the common part are plain or from which the rest of the file name climbs back to the root, or a bare drive or share and the file name climbs over the root |
| `PathRelocation.RelocationPreservesFile` | src/VSRelo/Relo.cpp:210-238 | for file names without dotted or empty pieces: if and only if both are on one volume, the target is not a bare drive or share, and they part at the root or every piece of the target behind that is plain |
| `PathRelocation.PlainStepsSuffice` | src/VSRelo/Relo.cpp:210-238 | plain pieces behind the common part are enough, whatever pieces the file name has |
| `PathRelocation.CaseOnly` | src/IscDbc/Engine.h:37 | up to case means that small letters count as their capitals, and nothing else |
| `PathRelocation.CommonMeans` | src/VSRelo/Relo.cpp:217-222 | the last common separator is one in both paths, the same name up to there, and there is no later one |
| `PaddedCompare.Compare` | src/IscDbc/Value.cpp:260-291 | the loops find the first difference of the blank-padded strings |
| `PaddedCompare.OrderAfterPadding` | src/IscDbc/Value.cpp:260-291 | negative, zero and positive are less, equal and greater in lexicographic order after filling up with blanks |
| `PaddedCompare.BlanksAtTheEnd` | src/IscDbc/Value.cpp:276-289 | blanks at the end make no difference, and any other character counts as it compares with a blank |
| `PaddedCompare.Opposite` | src/IscDbc/Value.cpp:260-291 | the other way round the answer is the opposite |
| `PaddedCompare.Transitive` | src/IscDbc/Value.cpp:260-291 | the order is transitive, strictly if a step is strict |
| `PaddedCompare.StringEqual` | src/IscDbc/IscCrossReferenceResultSet.cpp:111-126 | true exactly when that comparison of the characters before the nulls gives zero |
| `PaddedCompare.NullFree` | src/IscDbc/IscCrossReferenceResultSet.cpp:111-126 | for strings without nulls those are all their characters |
| `ColumnLayout.RoundupAtLeast` | src/IscDbc/Engine.h:38 | for every boundary above zero the mask form rounds up by less than the boundary |
| `ColumnLayout.RoundupAligns` | src/IscDbc/Engine.h:38 | for a power of two the result is a multiple of it |
| `ColumnLayout.Sqlda.AllocBuffer` | src/IscDbc/Sqlda.cpp:67-150 | every column, every indicator and the size of the buffer, or no buffer if a type is not implemented |
| `ColumnLayout.ColumnsInOrder` | src/IscDbc/Sqlda.cpp:132-142 | columns follow one another in list order, before the indicators, which are two-byte aligned and end the buffer |
| `ColumnLayout.ColumnsAligned` | src/IscDbc/Sqlda.cpp:132 | power-of-two boundaries are met |
| `ColumnLayout.ColumnsFit` | src/IscDbc/Sqlda.cpp:82-135 | every column has just the room it needs; varying columns are on even offsets, blobs and arrays on multiples of four, text anywhere, and any other type goes by its declared length |
| `ColumnLayout.ApartExactlyWhen` | src/IscDbc/Sqlda.cpp:80-136 | columns are apart if and only if none but the first has a boundary of zero |
| `ColumnLayout.ZeroBoundaryOverlaps` | src/IscDbc/Sqlda.cpp:100-102 | two columns that overlap |
| `ColumnLayout.DescribedColumnsApart` | src/IscDbc/Sqlda.cpp:80-136 | columns of fixed size that are declared with their size never do |
| `ColumnLayout.LengthIsPositive` | src/IscDbc/Sqlda.cpp:130-131 | the error for a length of zero cannot come up |

## Left out

- The database calls themselves (attach, reconnect, execute, fetch, services): only their effect on a part, a reference count or a buffer is modelled.
- `TDR_get_states`, `TDR_attach_database` and the reading of descriptions: what the databases report is a parameter.
- TwoPhaseRecovery.Reconnect: a refused reconnect leaves the part in limbo; its error messages are not modelled.
- SegmentedStream.Stream.GetSegmentAt: memory of somebody else that a stream refers to is a copy in the model, so a later change of that memory is not seen.
- SegmentedStream.Stream.PutCharacter: after a first segment that is only referred to, the stream may take its memory to be longer than it is; `Roomy` says when not.
- SegmentedStream.Stream.PutWide: the same.
- SegmentedStream.Stream.PutStream: a stream put into itself, which does not end.
- `SegmentedStream`: `setSegment`, `transferRecord`, `getString`, `putSegment` of blobs and clobs, and `getSegment` with a delimiter, which does not advance its offset at a segment border and so has no meaning in terms of the contents.
- RecordCompression.Decompress: segments that are cut inside a word.
- TemplateExpansion.WriteText: a text that ends inside "&lt" or "&gt" makes the program read past its end; the model stops there.
- TemplateExpansion.MakeGen.Expand: a set of templates that call themselves for ever is cut off by a fuel bound; `MoreFuel` and `AcyclicTemplatesExpand` say that the bound changes nothing else.
- `addTemplate` and `findTemplate`: the templates are a map in which the newest of a name counts; the overload of `expandTemplate` that returns a string; reading project files.
- CanonicalRecord.EncodeDecode: unless they fit the buffer as given, the totals are taken to stay within the 16-bit length; input is taken to hold the whole encoding, and a field of a type not handled, which stops the program with no result, is excluded.
- CanonicalRecord.Xdr.ExpandBuffer: totals beyond the 16-bit length.
- CanonicalRecord.Xdr.PutBytes: growth beyond the 16-bit length.
- CanonicalRecord.Xdr.GetBytes: growth beyond the 16-bit length.
- `CAN_slice`, `xdr_slice` and `xdr_datum`: the same primitives over array elements, whose descriptions are not part of this model; `xdr_datum` clips lengths where the record codec does not.
- StatementOwnership.Statement.Close: the statement handle.
- StatementOwnership.ResultSet.Close: automatic commits.
- SharedString.JString.Copy: more than 256 handles, which `Join` and `GiveUp` tell about.
- SharedString.JString.Assign: the same.
- SharedString.Plus: the same.
- SharedString.JString.SetString: a text that lies in the string's own buffer.
- `JString`: hashing, formatting, upper case and searching, which are easy or only compute.
- DecimalText.Convert: the sizes of the temporary buffers. The negation of the most negative value is taken to wrap around, as 64-bit arithmetic does.
- Encode64.Encode: the estimate of the output size.
- PathRelocation.RewriteFilename: making a name absolute (`PathName::expandFilename`) is a parameter, and its result is not empty; the size of the buffer; that on a file system that tells case apart a match up to case is not enough; `canonizeFilename` and the rewriting of the project tree.
- `LinkedList`: `getElement`, `getTail` and `isEmpty`, which only look; allocation checks.
- `ScanDir`: the directory calls around `match`.
- PaddedCompare.Compare: the branches for other types than strings.
- ColumnLayout.Sqlda.AllocBuffer: one call per descriptor, because a call rewrites the declared lengths; negative lengths; `checkOverflow`.
- User interfaces, message formatting, dates and times, metadata queries, switch tables and command-line loops: long, but without properties that span functions.
