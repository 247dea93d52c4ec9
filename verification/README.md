# Frommel, verified

A Dafny model of the hard parts of Frommel, a NetWare 3.12 file server: the bindery record
store, the password code, trustee files, the connection table with its watchdog, and the small
cursors, sets and matchers around them.  `dafny verify dfyconfig.toml` checks everything.

## What is modelled

**The bindery.**  `Bindery` (BinderyFiles.dfy) is a class whose fields are the three record files
and their cursors; its methods scan, patch in place, append, and delete by moving the last record
into the hole, statement by statement.  Each method is proved to have the effect of a function on
a `Store` (BinderyStore, BinderyUpdate, BinderyDelete), and each such function is proved to be a
simple operation on a view, a map from object id to an object with an ordered list of
properties and their data.  Two layers carry the proof: RecordFiles treats one file as a map from
id to body, BinderyHeap treats the three maps as linked lists.  `WF` is the invariant: ids are
unique in each file, every object's chain ends at 0xffffffff and visits exactly the properties
that name the object, each once, properties and values point at each other one to one, and names
are unique per object.  `lists` is a ghost field; `ListsDetermined` shows that the links leave no
choice for it.  Numbers drawn by `random()` are parameters.

**Repairs.**  `bindio_delete_prop` does not do what its comments say, so it is modelled twice.
`DeletePropAsWritten` follows the statements: the debug dump moves the cursor that the property
file update reads, the value file is not cut after its last record was moved, and the record
that is written back to patch a link was never read (its contents are a parameter).  `DeleteProp`
is the repair: the cursor is that of the property found, the value file is cut, and only the link
field is patched.  `AsWrittenMeetsIntentIff` says exactly when the two agree,
`WellFormedOnlyAtTheEnds` that the files survive in no other case than at their ends, and
BinderySample gives files, reached from empty ones, that do not survive.  Deletion of objects uses
the repair.

**Passwords.**  CryptTables holds the tables and the inverse of each of the 17 S-box rows, Cipher
the 16-round decryptor in place on arrays together with the forward cipher, PasswordHash the hash
in place and its closed form, and Password ties both to the PASSWORD property over whole runs of
the bindery.

**Trustees.**  `Volume` holds the trustee files of one volume as raw bytes by directory; a file
means a map from object id to rights.  The walk towards the volume root is characterized by the
nearest enclosing directory with a record.

**Connections.**  `ConnTable` is the table with its packet handlers; Watchdog is about whole event
traces, with the clock as part of each event, and Sessions about who is logged in after them.

**Cursors, sets, matchers.**  SearchCursor (file search and directory scan by returned number),
BinderyScan (wildcard scan by returned id), BinderySets (overlapping four-byte windows), MatchName
(`match_fn`), Base64 (`web_b64decode`), SapTable (service table).

Where the code and a natural reading of it disagree, the code is modelled and the exact condition
is proved: `AddObjectRefines` and `AddPropRefines` (random ids must be unused),
`ChangeObjectRefines` (a new id only without properties), `RenameExactlyWhen` (the stored name
length is not updated and 46 bytes are copied), `DeletedIsGoneExactlyWhen` (zeroing a window can
spell the deleted id again), `EnumeratesExactlyWhen` (a search that is given the number two below
the modulus finds its own starting number), `ReplyReaches` (connection numbers travel in one
byte), `BusyIsDroppedUnasked` (requests do not settle a watchdog query), `SkipMayGoExactlyWhen` (a
0xff byte that ends a pattern right after `*` counts, unless the pattern matches nothing anyway).
`src/doc/trustee.txt` calls the trustee format little-endian; the code, and the model, put the high
byte first.

## Model

| member | source | states |
|---|---|---|
| BinderyRuns.RunRefines | src/src/server/binderyio.c:377-1034 | over every legal run of additions, writes, changes and deletions the files stay well formed, and what a client sees is what the same run makes of a plain map from object id to object |
| BinderyRuns.RunChains | src/src/server/binderyio.c:377-1034 | after every legal run, from empty or any well-formed files, each chain ends at 0xffffffff and visits exactly the properties of its object, each once, properties and values are paired one to one, and names are unique per object |
| BinderyRuns.StepRefines | src/src/server/binderyio.c:377-1034 | every single operation keeps the files well formed and acts on the view as the corresponding map operation, error cases included |
| BinderyRuns.RunLeaves | src/src/server/binderyio.c:377-1034 | a property that no operation of a run writes, deletes, or loses with its object, is still there after the run, under its id, with the same data |
| BinderyRuns.StepKeepsNames | src/src/server/binderyio.c:377-1034 | objects keep different names or types through every operation, a rename if and only if no other object of the type is seen under the name it then shows |
| BinderyRuns.RunKeepsNames | src/src/server/binderyio.c:377-1034 | over every legal run whose renames give free names, so over every run without renames, no two objects get the same name and type |
| BinderyRuns.HeldIsRead | src/src/server/binderyio.c:612-634 | a held property is what a read delivers |
| BinderyRuns.WriteIsHeld | src/src/server/binderyio.c:642-693 | a successful write leaves the property holding the data, under the id it had |
| BinderyRuns.IdsInView | src/src/server/binderyio.c:453-570 | property ids are unique over all objects |
| BinderyRuns.EmptyFiles | src/src/server/binderyio.c:1043-1047 | truncated files are well formed and hold no object |
| BinderyHeap.ListsDetermined | src/src/server/binderyio.c:453-570 | the links of the records leave no choice for the list of properties of any object |
| BinderyStore.AddObjectRefines | src/src/server/binderyio.c:377-409 | an existing name and type is refused with nothing changed; otherwise the view gains one object without properties, and the files stay well formed if and only if the random id was unused |
| BinderyStore.AddPropRefines | src/src/server/binderyio.c:453-570 | an unknown object or existing name is refused with nothing changed; otherwise exactly this object's list gains the property at its end, and the files stay well formed if and only if both random ids were unused |
| BinderyStore.FlatScanIsChainScan | src/src/server/binderyio.c:422-440 | the flat scan of the property file by object and name finds the same property as walking the object's chain |
| BinderyStore.NoStrayProperties | src/src/server/binderyio.c:422-440 | the flat scan finds nothing for an id that is no object |
| BinderyHeap.AddPropLinked | src/src/server/binderyio.c:483-566 | linking a new property behind the last one keeps chains, one-to-one values and unique names |
| BinderyHeap.AddPropView | src/src/server/binderyio.c:483-566 | linking a new property appends it to one object's list and leaves every other object alone |
| BinderyFiles.Bindery.AddObject | src/src/server/binderyio.c:377-409 | the statements on the object file have exactly the specified effect on all three files and the reply |
| BinderyFiles.Bindery.AddProp | src/src/server/binderyio.c:453-570 | the statements on the three files have exactly the specified effect and reply |
| BinderyFiles.Bindery.Append | src/src/server/binderyio.c:483-566 | appending both records and patching either the object record or the last record of the chain links the property, although only one id is followed at a time |
| BinderyFiles.Bindery.WalkToEnd | src/src/server/binderyio.c:546-551 | following the links ends at the last property of the chain, with the cursor just behind its record; the walk terminates by the length of the remaining chain |
| BinderyFiles.Bindery.ScanObject | src/src/server/binderyio.c:225-250 | finds the first record of that name and type and leaves the cursor behind it |
| BinderyFiles.Bindery.ScanObjectById | src/src/server/binderyio.c:262-285 | finds the first record with that id and leaves the cursor behind it |
| BinderyFiles.Bindery.PropSeek | src/src/server/binderyio.c:158-181 | finds the first property with that id and leaves the cursor behind it, or at the end of the file |
| BinderyFiles.Bindery.ScanPropNextId | src/src/server/binderyio.c:338-364 | finds the first property whose link is that id and leaves the cursor behind it |
| BinderyFiles.Bindery.ScanProp | src/src/server/binderyio.c:422-440 | finds the first property of that object and name and leaves the cursor behind it |
| BinderyFiles.Bindery.ScanVal | src/src/server/binderyio.c:580-598 | finds the first value with that id and leaves the cursor behind it |
| BinderyFiles.Bindery.ScanObjectWild | src/src/server/binderyio.c:705-738 | answers the next matching object after the one last returned |
| BinderyScan.ScanEnumerates | src/src/server/binderyio.c:705-738 | passing back each returned id collects exactly the matching objects in file order, and then the scan fails |
| BinderyScan.SelectedOnce | src/src/server/binderyio.c:705-738 | each matching object is collected exactly once and nothing else is |
| BinderyScan.WellFormedScan | src/src/server/binderyio.c:705-738 | on well-formed files a scan from 0xffffffff enumerates all matching objects |
| BinderyScan.ScanCollectsFitting | src/src/server/binderyio.c:705-738 | a scan from 0xffffffff collects exactly once exactly the objects of the view of the wanted type, or any for 0xffff, and of the wanted name, or any for `*`, or named `*` themselves |
| BinderyUpdate.ReadPropRefines | src/src/server/binderyio.c:612-634 | a read delivers the data of the named property in the object's list, or fails if there is none |
| BinderyUpdate.WritePropRefines | src/src/server/binderyio.c:642-693 | a write replaces the data of exactly the named property, or fails with nothing changed |
| BinderyFiles.Bindery.ReadProp | src/src/server/binderyio.c:612-634 | the scans deliver the specified data |
| BinderyFiles.Bindery.WriteProp | src/src/server/binderyio.c:642-693 | the statements patch exactly the specified value record and return the specified code |
| BinderyUpdate.ChangeObjectRefines | src/src/server/binderyio.c:750-787 | the files stay well formed if and only if the id stays, or is new while the object has no properties; then the object is the same under the new id and name bytes |
| BinderyUpdate.RenameExactlyWhen | src/src/server/binderyio.c:768-772 | exactly when a renamed object is then seen under the wanted name |
| BinderyFiles.Bindery.ChangeObject | src/src/server/binderyio.c:750-787 | the statements overwrite exactly the object's record |
| BinderyDelete.DeletePropRefines | src/src/server/binderyio.c:796-948 | deleting a property as the comments describe removes exactly it and its value, whichever records move into the holes |
| BinderyDelete.DeleteUnknownProp | src/src/server/binderyio.c:807-810 | an id is refused, with nothing changed, exactly when no object has such a property |
| BinderyDelete.DeleteObjectRefines | src/src/server/binderyio.c:959-1034 | deleting an object removes it with exactly its own properties and values; every other object keeps its list, in order, with its data; only the object's own record is replaced by the last one |
| BinderyDelete.DeleteChainEmpties | src/src/server/binderyio.c:979-996 | deleting property after property empties one object's chain and changes nothing else but that object's link |
| BinderyHeap.DeletePropLinked | src/src/server/binderyio.c:807-948 | unlinking a property keeps chains, one-to-one values and unique names |
| BinderyHeap.DeletePropView | src/src/server/binderyio.c:807-948 | unlinking a property drops it from one object's list and leaves every other object alone |
| RecordFiles.SwapRemoveIsRemove | src/src/server/binderyio.c:829-895 | moving the last record into the hole and cutting the file removes one id and keeps every other record |
| RecordFiles.AppendIsInsert | src/src/server/binderyio.c:483-531 | a record at the end is a map insertion and keeps ids unique exactly when its id is new |
| RecordFiles.PatchIsUpdate | src/src/server/binderyio.c:672-689 | overwriting a record in place is a map update |
| RecordFiles.RenumberIsMove | src/src/server/binderyio.c:757-783 | overwriting a record by one with another id moves the entry, and keeps ids unique exactly when the id is its own or new |
| BinderyFiles.Bindery.DeleteProp | src/src/server/binderyio.c:796-948 | the repaired statements have exactly the specified effect on all three files |
| BinderyFiles.Bindery.Unlink | src/src/server/binderyio.c:897-948 | patches the link of the record that pointed at the property, or the object's first link, and nothing else |
| BinderyFiles.Bindery.DeleteProps | src/src/server/binderyio.c:979-996 | the loop follows the next ids while deleting and ends with the chain empty |
| BinderyFiles.Bindery.DeleteObject | src/src/server/binderyio.c:959-1034 | the statements have exactly the specified effect; the position of the object record, taken before the deletions, is still right after them |
| BinderyFiles.Bindery.DumpChain | src/src/server/binderyio.c:205-210 | walking a chain to its end leaves the property cursor at the end of the file |
| BinderyFiles.Bindery.Dump | src/src/server/binderyio.c:193-212 | the debug dump leaves the property cursor at the end of the file unless there is no object |
| BinderyFiles.Bindery.DeletePropAsWritten | src/src/server/binderyio.c:796-948 | the statements as they are have exactly the effect of the as-written specification |
| BinderyAsWritten.AsWrittenMeetsIntentIff | src/src/server/binderyio.c:796-948 | the statements delete what the comments say if and only if property and value are the last records of their files and the unassigned record happens to equal, link aside, the record to be patched |
| BinderyAsWritten.WellFormedOnlyAtTheEnds | src/src/server/binderyio.c:796-948 | the statements leave well-formed files only if the property and its value are the last records of their files, whatever the unassigned records hold; otherwise the property stays and nothing points at it, or a value is doubled |
| BinderySample.SampleIsReached | src/src/server/binderyio.c:377-570 | adding one object and two properties to empty files is a legal run that ends in the sample |
| BinderySample.SampleIsDestroyed | src/src/server/binderyio.c:796-948 | deleting the first property of the sample leaves well-formed files with the repaired statements, and never with the statements as they are |
| BinderySample.SampleHolds | src/src/server/binderyio.c:612-693 | on the sample a write succeeds and the first property is held, so the results about writes, reads and runs apply to it |
| BinderyAsWritten.LeakedValue | src/src/server/binderyio.c:841-856 | when the value is not the last of its file, the statements leave files that no lists make well formed |
| BinderySets.ChangeThenTest | src/src/server/bindery.c:157-324 | after a successful addition the member test succeeds; after a successful deletion it reports no such member if the id is safe |
| BinderySets.AddedIsMember | src/src/server/bindery.c:191-229 | data to which an id was added shows it |
| BinderySets.MemberMeans | src/src/server/bindery.c:307-321 | members are the four-byte numbers, high byte first, at the offsets 0 to 31 |
| BinderySets.DeletedExactlyMembers | src/src/server/bindery.c:191-237 | a deletion succeeds exactly for members |
| BinderySets.AddedExactlyWhen | src/src/server/bindery.c:191-237 | an addition succeeds exactly if some window is empty and none before it shows the id, which must not be 0 |
| BinderySets.SetAnswers | src/src/server/bindery.c:157-324 | when a change and a test answer which code, by the view of the bindery: no object, no property, refused access, no member object, and only then success or failure by the data; an unsuccessful change leaves the files alone |
| BinderySets.DeletedIsGoneExactlyWhen | src/src/server/bindery.c:191-213 | a successful deletion leaves no window with the id, for all data, if and only if the lowest byte of the id is not zero, or its highest is zero and its second lowest is not |
| BinderySets.ZeroingHidesNothing | src/src/server/bindery.c:198-206 | zeroing a window never makes an earlier overlapping window show a safe id |
| BinderySets.AddFillsFirstSlot | src/src/server/bindery.c:214-228 | in a set that keeps to multiples of four, an addition fills the first empty slot and keeps the set so; it is refused if and only if a window before that slot shows the id |
| BinderySets.FullSetRefuses | src/src/server/bindery.c:191-236 | such a set accepts nothing once its first eight slots are taken |
| BinderySets.EmptyWindowIsSlot | src/src/server/bindery.c:191-221 | in such a set the first empty window is an empty slot |
| BinderySets.AddRemove | src/src/server/bindery.c:189-236 | the loop over the windows computes the specified data in place |
| BinderySets.InSet | src/src/server/bindery.c:307-323 | the loop finds the id exactly when some window shows it |
| BinderySets.AddRemoveObjFromSet | src/src/server/bindery.c:157-240 | scans, errors, the window loop and the write back have exactly the specified effect |
| BinderySets.IsObjInSet | src/src/server/bindery.c:257-324 | scans, errors and the window loop give exactly the specified answer |
| Password.SetThenVerify | src/src/server/bindery.c:406-452 | after a password is set, verification accepts the response to every login key and nothing else, and still does after every run that spares the property |
| Password.ChangeThenVerify | src/src/server/ncp_23.c:831-836 | if the client encrypted the halves of a hash with those of the stored one, the keyed change stores exactly that hash, and verification goes by it after every run that spares the property |
| Password.SetPwd | src/src/server/bindery.c:431-452 | hashes with the object id, high byte first, and writes the PASSWORD property |
| Password.VerifyPwd | src/src/server/bindery.c:406-421 | accepts exactly the keyed response of the stored hash |
| Password.DecryptAndStore | src/src/server/ncp_23.c:831-836 | decrypts both halves in place with the stored hash as key, keeps the key buffer, and writes the property |
| Password.ChangeUndoes | src/src/server/ncp_23.c:831-836 | decrypting what the client encrypted gives back the hash |
| Cipher.CipherInverse | src/src/lib/crypt.c:249-282 | for every key, decryption and the forward cipher are inverse bijections on 8-byte blocks |
| Cipher.DecryptionRounds | src/src/lib/crypt.c:249-282 | seventeen blocks lead from ciphertext to result, each nibble the entry of the 272-byte table that the next block, the rotated key and the last row lead to |
| Cipher.RoundsInverse | src/src/lib/crypt.c:259-279 | the same for any number of rounds, round keys in reverse order |
| Cipher.DecryptUndoesRound | src/src/lib/crypt.c:260-278 | one decryption round undoes one round of the forward cipher |
| Cipher.EncryptUndoesRound | src/src/lib/crypt.c:260-278 | one round of the forward cipher undoes one decryption round |
| Cipher.FullTurn | src/src/lib/crypt.c:268-271 | sixteen nibble rotations bring the key back |
| Cipher.RotateByIsShift | src/src/lib/crypt.c:268-271 | n rotations read the key n nibbles further, around the end |
| CryptTables.RowsArePermutations | src/src/lib/crypt.c:204-247 | all seventeen rows of the S-box table are permutations of the nibbles |
| Cipher.BuildInverse | src/src/lib/crypt.c:255-257 | the loop fills the inverse of all seventeen rows; every index stays in range |
| Cipher.Permute | src/src/lib/crypt.c:260-266 | the nibbles of a block are permuted by the last row |
| Cipher.RotateKey | src/src/lib/crypt.c:268-271 | the key is rotated by one nibble in place |
| Cipher.Mix | src/src/lib/crypt.c:273-277 | every nibble goes through the inverse of its own S-box and is combined with the key |
| Cipher.DecryptNewPass | src/src/lib/crypt.c:249-282 | the in-place loops compute the decryption of the block, leave the rest of the buffer alone, and restore the key |
| PasswordHash.Shuffle | src/src/lib/crypt.c:149-186 | the hash equals its closed form: blocks folded, a tail cycling with period rest plus one whose extra step uses the key table, the id, two mixing passes and the final table |
| PasswordHash.FoldBlocks | src/src/lib/crypt.c:160-167 | the exclusive-or of the full 32-byte blocks |
| PasswordHash.FoldTail | src/src/lib/crypt.c:169-180 | the tail repeats with period rest plus one; the extra step takes the key byte of that position |
| PasswordHash.AddId | src/src/lib/crypt.c:182-183 | the four id bytes are folded in cyclically |
| PasswordHash.Mix | src/src/lib/crypt.c:134-142 | both mixing passes compute the closed form, with a running sum that never exceeds 64 times 255 |
| PasswordHash.MixPass | src/src/lib/crypt.c:137-141 | one pass of 32 steps; the running sum fits a 16-bit short at every step |
| PasswordHash.FillTarget | src/src/lib/crypt.c:144-146 | sixteen bytes from table nibbles, nothing else is written |
| PasswordHash.Mixing | src/src/lib/crypt.c:134-142 | the running sum after n steps is at most 255 n |
| PasswordHash.HashIgnoresTrailingNuls | src/src/lib/crypt.c:154-155 | trailing zero bytes of a password do not change its hash |
| PasswordHash.HashMeans | src/src/lib/crypt.c:128-186 | the hash of a password with any zeros behind it comes from the folded bytes by 64 explicit mixing steps, each with its two sums and its key byte, and by the table nibbles of the last bytes |
| PasswordHash.FoldedClosedForm | src/src/lib/crypt.c:154-183 | every folded byte, explicitly: the full blocks, the rest of r bytes with period r + 1 and a key byte in the extra step, and the id byte |
| PasswordHash.BlocksInFront | src/src/lib/crypt.c:160-167 | full blocks in front of a password change the folded bytes by exclusive-or and leave the rest alone |
| PasswordHash.PasswordsFoldApart | src/src/lib/crypt.c:149-183 | different passwords of one length below 32 fold to different bytes |
| PasswordHash.IdsFoldApart | src/src/lib/crypt.c:182-183 | different object ids fold one password to different bytes |
| PasswordHash.BlocksMayBeExchanged | src/src/lib/crypt.c:154-186 | exchanging two full 32-byte blocks of a password, wherever they stand, does not change its hash |
| PasswordHash.DoubledBlockVanishes | src/src/lib/crypt.c:154-186 | a full block that occurs twice may be dropped at both places without changing the hash: different passwords with the same hash |
| PasswordHash.StripLength | src/src/lib/crypt.c:154-155 | the stripped password ends in a nonzero byte and only zeros were cut |
| PasswordHash.NwEncrypt | src/src/lib/crypt.c:189-201 | the response is the two keyed hashes folded twice |
| PasswordHash.ResponseBytes | src/src/lib/crypt.c:189-201 | byte s of the response is the exclusive-or of bytes s and 15 - s of the two hashes of the stored value under the halves of the key |
| Trustee.RunRefines | src/src/server/trustee.c:246-408 | over every run of grants and removals ids stay unique in every file and the files mean what the same run makes of maps |
| Trustee.GrantIsUpdate | src/src/server/trustee.c:276-314 | granting is map update on the bytes of a file |
| Trustee.GrantedBytes | src/src/server/trustee.c:284-314 | a grant leaves the six bytes of id and rights, high bytes first, at one place, and every other record as it was |
| Trustee.RemoveIsRemoval | src/src/server/trustee.c:346-408 | moving the last record into the hole and cutting the file is map removal on the bytes of a file |
| Trustee.GrabIsLookup | src/src/server/trustee.c:69-97 | grabbing rights is map lookup |
| Trustee.RecRoundTrip | src/src/server/trustee.c:55-58 | a record that was written reads back |
| Trustee.ScanFindsNearest | src/src/server/trustee.c:109-145 | the walk ends, returns the record of the nearest enclosing directory up to the volume root, and says no record exactly when a path under a root with a slash has none |
| Trustee.GrantChangesOnly | src/src/server/trustee.c:109-314 | a grant changes exactly the answers for this object and for paths that have the directory on their way with no record nearer |
| Trustee.RemoveChangesOnly | src/src/server/trustee.c:109-408 | a removal changes exactly the answers that the record decided; they become the answer of the rest of the walk |
| Trustee.Volume.GrabRights | src/src/server/trustee.c:69-97 | the scan of the file finds the record of the object or nothing |
| Trustee.Volume.ScanRights | src/src/server/trustee.c:109-145 | the loop that cuts the path at its last slash gives the answer of the walk and terminates |
| Trustee.Volume.GrantRight | src/src/server/trustee.c:246-314 | overwrites the record of the object or appends one, touches no other file, and reports success |
| Trustee.Volume.RemoveRight | src/src/server/trustee.c:325-408 | removes exactly the record of the object; success exactly if there was one, an input-output error exactly for a missing file or an empty one whose stale record names the object |
| Watchdog.ReachableInv | src/src/server/conn.c:103-319 | in every reachable table unused entries are blank, used entries belong to different hosts, supervisors are logged in, and attached entries have no object |
| Connections.StepKeeps | src/src/server/conn.c:103-319 | every event keeps that invariant |
| Connections.AttachGives | src/src/server/conn.c:103-136 | a known host gets its own entry, a new one the first unused entry; attaching fails exactly for a new host at a full table; no other entry changes |
| Sessions.SessionIsLastLogin | src/src/server/ncp_23.c:274-278 | over every trace the object id, type and supervisor flag of an entry are those of the last served login to it with no logout, attachment, destroy, clear or drop since; without one nobody is logged in there |
| Connections.ServedRequest | src/src/server/ncp.c:1376-1389 | what each request served from the full address of its entry leaves, field by field, for ordinary requests, login, logout and clear |
| Connections.OtherPackets | src/src/server/ncp.c:1376-1401 | packets from another address change nothing, a destroy and a clear leave the entry blank, and a reply sets its times exactly if it says N and comes from the host of its entry |
| Connections.FullTable | src/src/server/conn.c:32-66 | the count of used entries reaches the table size exactly when no entry is free |
| Connections.ReplyReaches | src/src/server/wdog.c:56-58 | an echoed reply counts for a connection if and only if its number is below 256, and otherwise changes nothing |
| Connections.ConnTable.FindFreeConn | src/src/server/conn.c:32-44 | the first unused entry, or none |
| Connections.ConnTable.CountUsed | src/src/server/conn.c:53-66 | the number of used entries |
| Connections.ConnTable.ScanClientByAddr | src/src/server/conn.c:76-92 | the first entry of that network and node, or none |
| Connections.ConnTable.AttachClient | src/src/server/conn.c:103-136 | the statements have exactly the specified effect and answer |
| Connections.ConnTable.LogoutConn | src/src/server/conn.c:147-184 | the entry becomes attached, without object and supervisor flag |
| Connections.ConnTable.ClearConn | src/src/server/conn.c:193-199 | the entry becomes blank |
| Connections.ConnTable.Cleanup | src/src/server/conn.c:293-319 | queries or drops exactly the late entries |
| Connections.ConnTable.HandlePacket | src/src/server/ncp.c:1336-1405 | dispatch: a request or destroy is served exactly from the full address of its entry and refreshes the time of the last activity |
| Connections.ConnTable.HandleRequest | src/src/server/ncp_23.c:274-278 | login, logout and clear change exactly the specified fields |
| Connections.ConnTable.HandleReply | src/src/server/wdog.c:80-113 | an accepted reply resets both times, anything else changes nothing |
| Watchdog.QueryIsPending | src/src/server/conn.c:303-312 | the table records a query exactly while an earlier cleanup's query is not settled |
| Watchdog.DroppedExactlyIfQueried | src/src/server/conn.c:303-317 | an event drops a connection if and only if it is a cleanup that finds it late while an earlier cleanup's query is out, with no accepted reply, attachment or end since |
| Watchdog.SilentFades | src/src/server/conn.c:293-319 | what becomes of a silent connection depends only on the cleanups that find it late: the first queries it, the next drops it |
| Watchdog.SilentIsQueriedThenDropped | src/src/server/conn.c:293-319 | under a clock that does not run backwards, a silent connection is untouched until the first cleanup more than 300 seconds after its last activity, queried there, and dropped at the next cleanup |
| Watchdog.BusyIsDroppedUnasked | src/src/server/ncp.c:1386-1389 | a served request that does not end the connection, be it a login, a logout or another, leaves a query pending, so the connection is dropped without another one when it is late again |
| SearchCursor.EnumeratesExactlyWhen | src/src/server/ncp.c:323-362 | sending back each returned number answers every qualifying entry once, in directory order, and then ends, if and only if fewer than modulus minus one entries qualify, or exactly that many with the first entry among them |
| SearchCursor.SearchesEnumerate | src/src/server/ncp.c:323-362 | the same for both 16-bit file searches and the 32-bit directory scan, with their limits 65535 and 4294967295 |
| SearchCursor.ContinueAnswers | src/src/server/ncp.c:323-362 | a file search enumerated to its end answers exactly the entries that match or equal the pattern, are not the trustee file, and are files with the scan right if bit 4 of the attribute is clear, or else permitted directories other than the two links |
| SearchCursor.SearchAnswers | src/src/server/ncp.c:726-748 | a search by name enumerated to its end answers exactly the entries that match or equal the pattern |
| SearchCursor.ScanAnswers | src/src/server/ncp_22.c:895-929 | the same as for a file search, without the two rights, for the directory scan |
| SearchCursor.AnswersQualify | src/src/server/ncp.c:323-362 | for every given number but the one two below the modulus the answered entry qualifies |
| SearchCursor.ProbeIsFirst | src/src/server/ncp.c:323-362 | the search answers the first entry after which the running number is the wanted one |
| SearchCursor.ProbeForStart | src/src/server/ncp.c:323-362 | the number two below the modulus answers a first entry that does not qualify |
| SearchCursor.Wrapped | src/src/server/ncp.c:323-362 | with more qualifying entries than numbers the first entry is answered again |
| SearchCursor.NthInOrder | src/src/server/ncp.c:323-362 | entries are answered in directory order without repeats |
| SearchCursor.NthReaches | src/src/server/ncp.c:323-362 | every qualifying entry is answered |
| SearchCursor.FsContinue | src/src/server/ncp.c:322-372 | the loop, with its 16-bit wrap, is the probe over the entries that qualify; for every given number but 0xfffe it answers only an entry that the search is for |
| SearchCursor.FileSearch | src/src/server/ncp.c:726-762 | the loop is the probe over the entries that match; for every given number but 0xfffe it answers only such an entry |
| SearchCursor.ScanDir | src/src/server/ncp_22.c:895-945 | the loop, with its 32-bit wrap and other starting number, is the same probe; for every given number but 0xfffffffe it answers only an entry that the scan is for |
| MatchName.MatchFn | src/src/lib/misc.c:93-139 | the loop over two indices computes the recursive meaning, terminates, and passes neither terminator |
| MatchName.IgnoresCase | src/src/lib/misc.c:128-135 | names and patterns that are equal up to ASCII letter case, byte by byte, match alike |
| MatchName.PlainPattern | src/src/lib/misc.c:97-138 | a pattern without wildcards or escapes matches exactly the name it spells, up to ASCII letter case and trailing dots of the pattern |
| MatchName.StarMatchesAll | src/src/lib/misc.c:104-117 | `*` and `*.*` match every name |
| MatchName.StarDotExtension | src/src/lib/misc.c:97-138 | `*.` and a dotless extension match exactly the names with that extension, up to letter case, behind their first dot |
| MatchName.HighBitTwins | src/src/lib/misc.c:99-124 | question marks, dots and stars with the high bit set mean the same as without, except for a star at the end |
| MatchName.HighStarAtEnd | src/src/lib/misc.c:104-117 | a star with the high bit set at the end is a `*` that a 0xff follows |
| MatchName.QueriesDotQueries | src/src/lib/misc.c:99-124 | n question marks, a dot and m question marks match exactly the names with at most n bytes before the first dot and a dot-free rest of at most m |
| MatchName.SkipMayGoExactlyWhen | src/src/lib/misc.c:97-138 | dropping a 0xff byte leaves the matches of every name unchanged if and only if it does not end the pattern right after `*`, or the pattern before it is one that matches nothing |
| MatchName.MatchesSomeNameExactlyWhen | src/src/lib/misc.c:97-138 | a pattern matches no name at all if and only if some star is followed, across only stars, question marks and 0xff bytes, by an ordinary byte |
| MatchName.StarThenSkip | src/src/lib/misc.c:104-127 | `*` and a final 0xff match exactly the names without a dot |
| Base64.DecodesEncoded | src/src/server/web.c:630-700 | decoding undoes the encoding of section 4 of RFC 4648 for every byte string |
| Base64.IgnoresForeign | src/src/server/web.c:668-671 | bytes outside the alphabet may be inserted anywhere without effect |
| Base64.B64Decode | src/src/server/web.c:658-700 | the phase machine writes exactly the prefix of the full decoding that fits, and returns its length |
| SapTable.RunRefines | src/src/server/sap.c:131-307 | over every run of responses and cleanups live entries have different case-folded name and type, and the table means what the same run makes of a map of bounded size |
| SapTable.ResponseRefines | src/src/server/sap.c:131-212 | a response is the fold of insert-or-refresh over its records that stops at the first one finding no free slot |
| SapTable.RecordRefines | src/src/server/sap.c:149-178 | one record inserts or refreshes one entry, and stops exactly at a full table |
| SapTable.CleanupRefines | src/src/server/sap.c:289-307 | exactly the entries not refreshed for more than 150 seconds are removed |
| SapTable.ViewSize | src/src/server/sap.c:110-121 | the table is full exactly when its map has as many entries as slots |
| SapTable.SameNameMeans | src/src/server/sap.c:88-93 | names count as the same exactly if they end at one place, a zero or 48 bytes, and are equal up to ASCII letter case before it |
| SapTable.Services.ScanFor | src/src/server/sap.c:85-101 | the first slot of that case-folded name and type, or none |
| SapTable.Services.ScanFreeNo | src/src/server/sap.c:110-121 | the first free slot, or none |
| SapTable.Services.HandleResponse | src/src/server/sap.c:131-212 | the loop has exactly the effect of the specified fold |
| SapTable.Services.CleanUp | src/src/server/sap.c:289-307 | the loop frees exactly the expired slots |

## Left out

- Sockets, select loops, signals, IPX addresses as bytes, and packet layout with its length checks: packets, the clock and ticks are inputs of the model.
- Failing reads and writes: every record write is assumed to succeed.
- The MySQL and PostgreSQL back ends of the bindery.
- Bindery access masks (`bind_check_access`): their verdict is the parameter `denied` of the set operations.
- The check of the old password in the keyed change, with its blank-password case for supervisors (src/src/server/ncp_23.c:799-828): only the decrypt-and-store tail is modelled.
- The SECURITY_EQUALS search in `trust_get_rights` and the supervisor and login-directory shortcuts: only the direct walk is modelled.
- The comparison of a right with the stored mask in `trust_check_rights`.
- `fs_build_path`, buffer sizes of paths and file system calls: paths are strings, directories are fixed sequences of entries, and whether a directory entry may be scanned is part of the entry.
- File, directory and search handles, messages and login keys of a connection; no claim is made that file descriptors are closed.
- Connections without an address: `conn_attach_client` is only modelled with an address, as its only caller uses it.
- Connections.ConnTable.HandleRequest: a clear request for a number beyond the table, which the source does not check and would follow out of the allocated entries, changes nothing in the model.
- The bindery side effects of a response for a server of type 4, and the replies to service requests.
- The second debug dump of `bindio_delete_prop`, which only moves cursors that are set again before use.
- The membership test by ids instead of names, which only skips the two object scans.
- The decoder's table is read with bytes taken as unsigned, so bytes from 0x80 on are outside the alphabet; a platform whose `char` is signed reads in front of the table.
- `tolower` is that of the C locale.
- Console, configuration, web templates, GASP and link sessions: easy members only.
- BinderyRuns.RunRefines: a change of object id is part of a run only for an object without properties and to an unused id, and random ids only if unused; ChangeObjectRefines, AddObjectRefines and AddPropRefines show that anything else leaves files that no lists make well formed.
- Watchdog.ReachableInv: packets come from hosts with a nonzero network or node, and the clock is past zero.
