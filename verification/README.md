# STUN server and client: a verified model

The project models the STUN code of the repository in Dafny and proves what it is for: that the
three forms of the CRC engine compute one polynomial remainder; that messages written by the
builder come back from the incremental reader, with their integrity and fingerprint trailers
valid; that the hash table without allocation is a map of stacks with an order index on top;
that the poller loses and repeats no event; that the request handler answers every request with
a reply its own reader accepts; and that the client's test sequence ends, stays within its
number of attempts, and classifies a NAT correctly, with the exact conditions under which it
does. The last modules put client, NAT and server together.

The classes and methods follow the classes of the source, with their fields and loops; each is
proved against functions on values, and the theorems are lemmas about those functions.

| file | models |
|---|---|
| Words, CrcSpec, CrcLaws, CrcEngine | the CRC engine of boost/crc.hpp; words are lists of bits, the highest first, of any width from eight up |
| Primes, Seqs, FastHashLayout, FastHash | fasthash.cpp and fasthash.h |
| Polling | polling.cpp, the class CPoll |
| Bytes, DataStream | buffer.cpp and datastream.cpp |
| StunFormat, StunMessage, Acceptance, Integrity, TrailerChecks, FingerprintPlace, SocketAddress, Fingerprint, WireFormat | the wire format (RFC 5389 sections 6 and 15, RFC 3489 for the older padding), the trailers and the addresses, as values |
| StunQuery, StunRecords, StunReader, StunBuilder | stunreader.cpp and stunbuilder.cpp |
| HandlerSpec, HandlerProofs, HandlerLaws, MessageHandler | messagehandler.cpp |
| ClientSpec, ReplyReading, ClientRuns, ClientRequests, ClientVerdicts, ClientLogic | stunclientlogic.cpp and stunclienttests.cpp (RFC 5780 sections 4.3 and 4.4) |
| Interop | the request of the client at the server, and the reply at the client |
| EndToEnd | whole runs of client, NAT and server |
| Seals | how invariants are passed on whole |

`dafny verify dfyconfig.toml` checks everything.

## What turned out

- The register of `boost/crc.hpp` is linear, so a message with a trailer checks to zero in the
  augmented form if and only if the trailer is the checksum, for every width that is a multiple of eight.
- A checksum sent behind its message makes a sum that is the same for all messages; no other trailer does so if and
  only if the generator has a constant term (`CrcLaws.ClosedOnlyByOwnSum`, `CrcLaws.EvenGeneratorMisses`).
- What the reader accepts is exactly what the builder can write, but for the padding (`Acceptance.AcceptedExactly`).
- `CPoll::Add` does not look at the result of the insertion: vector and table agree afterwards
  if and only if the table was not full (`Polling.CPoll.Add`), and one socket too many is enough (`Polling.OneTooMany`).
- A mapping class is reported correctly if and only if the server's other address differs in the
  address, and for the strictest class also in the port (`ClientVerdicts.MappingClassified`).
- A filtering class is reported correctly if and only if the run can show it (`ClientVerdicts.FilteringClassified`).
  A direct host is always reported as endpoint independent, whatever firewall it has. A filter by
  address looks endpoint independent if the server's other address shares the ip, or if both test
  groups run over one socket behind an endpoint-independent mapping, because the second mapping test
  has then already sent to the other address. A filter by port looks like one by address if the other
  address shares the port. Both conditions hold end to end (`EndToEnd.ClassesReported`), and wherever
  one fails there is a run that misreports (`EndToEnd.MappingMisreported`, `EndToEnd.FilteringMisreported`).
- Late and repeated replies do no harm as long as different tests draw different ids (`EndToEnd.EventsTold`); with
  one id for two tests they do (`EndToEnd.SameIdsMislead`).
- A timeout of more than 4294967 seconds is never over, since the difference of two readings of the millisecond
  counter does not show it (`EndToEnd.LongTimeoutWaits`).
- A filtering test takes any valid message with its transaction id, an error response included
  (`Interop.FilteringTakesAnything`). A server that offers its other address to a datagram client never refuses
  a filtering test (`Interop.OfferingIsServing`). A refusal counts as the response (`Interop.RefusalCountsAsResponse`)
  for a caller of the client logic that runs filtering tests over a connection, or asks a server that offers an
  address it has no socket for; the command line client does not make the first, since it turns the filtering tests off
  over TCP (clientmain.cpp, line 236).
- A test takes only responses to requests it has sent, if and only if no valid message with an id of zeros and a
  mapped address comes before the first call of GetNextMessage. The first test expects that id until then, and takes such a message
  (`ClientRequests.ZeroIdTaken`); a caller that asks for a message first is safe (`ClientRequests.AskingFirstIsSafe`).
- A comment in stunreader.cpp rules out a fingerprint that is not the last attribute; the code does not look at
  its position, and a fingerprint followed by another attribute can be accepted (`FingerprintPlace.EarlyFingerprintAccepted`).
  The verdict is the documented one exactly when it is the last (`FingerprintPlace.VerdictExact`).
- `Reset` of the reader allows legacy messages again.
- `AddRandomTransactionId` draws eight random bytes behind the cookie; its loop stops four short of the
  end of the id, so the last four are whatever was in memory.
- `CBuffer::SetSize` assigns whatever it is given; that the size stays within the allocation is an
  invariant of the stream.

## Reading the model

- HMAC-SHA1 and MD5 are arbitrary functions with results of 20 and 16 bytes; the checksum of the
  trailers is arbitrary in the lemmas and the CRC-32 of the engine in the methods.
- The hash of the table is an arbitrary function of the key. The authentication provider is an arbitrary
  function that may fail. The translations between event flags of the system and of the poller are arbitrary functions.
- A call of poll() is a parameter: its return value and what it stored. A positive value is the number of non-zero slots; on error or timeout nothing is stored.
- Time, random bytes and the local address of a response are parameters of the client's calls; the
  millisecond counter wraps around at 32 bits as in the source.
- A NAT is a function from destination to mapped address; it is of a class towards the three addresses the
  client sends to. A NAT that filters lets a response in by what was sent through the same mapping.
- The server's request is any message its reader validated, of either format.
- In whole runs the client's calls alternate as they like with arrivals of the server's replies to any requests sent so
  far; the NAT lets each in or not, by what was sent through the mapping it arrives at; replies may be lost, late,
  out of order or repeated.

## Model

| member | source | states |
|---|---|---|
| CrcSpec.FeedLinear | jni/stunserver/boost/crc.hpp:600-621 | The division register is linear over exclusive or: feeding the sum of two bit strings to the sum of two registers gives the sum of the results |
| CrcSpec.FeedBlock | jni/stunserver/boost/crc.hpp:946-967 | Up to a register width of bits may be divided at once: shift the register and add the remainder of the bits that met its top |
| CrcSpec.TableStepRefinesFeed | jni/stunserver/boost/crc.hpp:934-944 | One table step on a reflected (or not) register is eight single-bit steps on the register of the bit-serial machine, for every width from 8 up, every polynomial, register and byte |
| CrcSpec.FlushAugmented | jni/stunserver/boost/crc.hpp:1047-1076 | Zeros of the register width behind a message turn the augmented register into the ordinary one |
| CrcSpec.AugmentedMessage | jni/stunserver/boost/crc.hpp:1047-1076 | The augmented form over a message and a trailer is the ordinary unreflected remainder of the message plus the trailer |
| CrcSpec.AugmentedCheck | jni/stunserver/boost/crc.hpp:1047-1076 | Zero-initialised: with zeros appended it returns the checksum of the message; with any trailer it returns zero if and only if the trailer is that checksum |
| CrcSpec.FeedDivides | jni/stunserver/boost/crc.hpp:726-751 | The register is the remainder of a polynomial division of the message, with the quotient as witness |
| CrcSpec.RemainderUnique | jni/stunserver/boost/crc.hpp:726-751 | It is the only remainder: any division of the dividend, whatever its quotient, ends in the same one |
| CrcLaws.EmptySum | jni/stunserver/boost/crc.hpp:784-823 | The checksum of the empty message is the initial value, reflected if the result is, exclusive-ored with the final value |
| CrcLaws.SumOfClosed | jni/stunserver/boost/crc.hpp:784-823 | A message followed by the bytes of its own checksum has a checksum that does not depend on the message, for every width that is a multiple of eight and either bit order |
| CrcLaws.ClosedOnlyByOwnSum | jni/stunserver/boost/crc.hpp:784-823 | If the generator has a constant term, no other trailer of that length has this checksum: every change of the trailer is noticed |
| CrcLaws.EvenGeneratorMisses | jni/stunserver/boost/crc.hpp:784-823 | If it has none, some other trailer has it for every message |
| CrcEngine.Reflect | jni/stunserver/boost/crc.hpp:306-330 | The loop over the low bit reverses the word |
| CrcEngine.CrcBasic.ProcessBit | jni/stunserver/boost/crc.hpp:726-751 | The test of the top bit after adding the bit is one division step |
| CrcEngine.CrcBasic.ProcessBits | jni/stunserver/boost/crc.hpp:753-771 | The loop feeds the low bits of the byte, highest first |
| CrcEngine.CrcBasic.ProcessByte | jni/stunserver/boost/crc.hpp:772-782 | Feeds the byte, reflected when input is |
| CrcEngine.CrcTable.FillSlot | jni/stunserver/boost/crc.hpp:504-532 | One turn of the outer loop: the slot of this dividend, found by reflection, gets the reflected 8-step remainder, and the earlier slots keep theirs |
| CrcEngine.CrcTable.InitTable | jni/stunserver/boost/crc.hpp:488-536 | Afterwards all 256 slots hold the right remainder, on the first call and on any later one |
| CrcEngine.CrcOptimal.ProcessBlock | jni/stunserver/boost/crc.hpp:946-968 | After any buffer the register is the (reflected) register of the bit-serial machine after the same buffer |
| CrcEngine.OptimalCrc | jni/stunserver/boost/crc.hpp:1024-1043 | The table-driven machine returns CrcSpec.Checksum of the message |
| CrcEngine.BasicCrc | jni/stunserver/boost/crc.hpp:784-823 | The bit-at-a-time machine returns the same CrcSpec.Checksum |
| CrcEngine.AugmentedCrc | jni/stunserver/boost/crc.hpp:1047-1076 | The loop over the buffer computes CrcSpec.Augmented, of which CrcSpec.AugmentedCheck speaks |
| Fingerprint.ComputeFingerprint | jni/stunserver/all/stunbuilder.cpp:412-450 | The checksum object with the CRC-32 parameters, and the constant, give a number whose big-endian bytes are the fingerprint |
| Fingerprint.SameFingerprint | jni/stunserver/all/stunreader.cpp:92-131 | Comparing the number read with the number computed is comparing the four bytes |
| WireFormat.FingerprintUnmasked | jni/stunserver/all/stunbuilder.cpp:412-450 | The fingerprint exclusive-ored with the letters STUN is the big-endian CRC-32 of the bytes (RFC 5389 section 15.5) |
| WireFormat.CrcGenerator | jni/stunserver/boost/crc.hpp:97-98 | The generator of this CRC-32 is that of IEEE 802.3 |
| Primes.TrialDivisionSuffices | jni/stunserver/all/fasthash.cpp:44-57 | An odd number is prime if none of 3 .. floor(sqrt) + 1 divides it, composite candidates included |
| Primes.PrimeAbove | jni/stunserver/all/fasthash.cpp:42-59 | The search ends: by Euclid there is a prime between val and val! + 1 |
| Primes.PassesTrialDivision | jni/stunserver/all/fasthash.cpp:44-57 | The inner loop decides primality of an odd number of at least five |
| Primes.FindPrime | jni/stunserver/all/fasthash.cpp:22-62 | Returns the least prime that is at least val |
| AssocList.PushRefines | jni/stunserver/all/fasthash.h:284-313 | Appending an entry pushes its value on the stack of its key and leaves all other stacks alone |
| AssocList.PopRefines | jni/stunserver/all/fasthash.h:316-349 | Removing the newest entry of a key pops that stack and leaves all other stacks alone; nothing changes when there is none |
| AssocList.TopRefines | jni/stunserver/all/fasthash.h:351-361 | The newest entry of a key is the top of its stack |
| FastHashLayout.Partition | jni/stunserver/all/fasthash.h:239-262 | In any valid layout every node is either on the free list or live, never both, and the lists have no repetitions, so their lengths add up to the number of nodes |
| FastHashLayout.InsertKeepsLayout | jni/stunserver/all/fasthash.h:284-313 | Moving the head of the free list to the head of a chain keeps all lists acyclic, disjoint and on the chains their keys hash to |
| FastHashLayout.RemoveKeepsLayout | jni/stunserver/all/fasthash.h:316-349 | Unlinking a node anywhere on a chain and making it the head of the free list keeps all of that |
| CircularIndex.ReadsAdd | jni/stunserver/all/fasthash.h:152-163 | Writing behind the last entry extends what the circular index reads by one, also around its end |
| CircularIndex.ReadsDropFront | jni/stunserver/all/fasthash.h:187-192 | Advancing the start drops exactly the first entry |
| CircularIndex.ReadsDropBack | jni/stunserver/all/fasthash.h:194-198 | Counting one entry less drops exactly the last entry |
| FastHash.FastHash.Reset | jni/stunserver/all/fasthash.h:239-262 | The table is empty and valid, whatever it held |
| FastHash.FastHash.Find | jni/stunserver/all/fasthash.h:99-125 | The probe finds the node of the newest entry of the key and its predecessor on the chain, or none exactly when there is no entry |
| FastHash.FastHash.Insert | jni/stunserver/all/fasthash.h:284-313 | Returns -1 exactly when the table is full, and then changes nothing; otherwise the entry is appended; the order of insertion is as unbroken as before |
| FastHash.FastHash.Remove | jni/stunserver/all/fasthash.h:316-349 | Returns -1 exactly when the key has no entry, and then nothing changes; otherwise its newest entry is gone, all others stay in order, and the order of insertion is unbroken if and only if it was and that entry was the oldest or the newest of all, or it was the only one |
| FastHash.FastHash.Lookup | jni/stunserver/all/fasthash.h:351-361 | Finds the newest value of the key |
| FastHash.FastHash.Exists | jni/stunserver/all/fasthash.h:363-366 | True exactly when some entry has the key |
| FastHash.FastHash.Store | jni/stunserver/all/fasthash.h:351-361 | Assigning through the pointer returned changes that one value |
| FastHash.FastHash.UpdateIndexWithAdd | jni/stunserver/all/fasthash.h:152-163 | While the index is valid it reads the old nodes and then the new one |
| FastHash.FastHash.UpdateIndexWithRemove | jni/stunserver/all/fasthash.h:166-204 | After a removal the index is either invalid or reads exactly the remaining nodes; the order of insertion is unbroken afterwards if and only if it was before and the node was the first or the last, or it was the only one |
| FastHash.FastHash.ReIndex | jni/stunserver/all/fasthash.h:128-149 | The rebuilt index reads every live node once |
| FastHash.FastHash.LookupByIndex | jni/stunserver/all/fasthash.h:368-390 | Rebuilds an invalid index, returns the node at that place, and is null exactly from the size on; the places are in order of insertion while that order is unbroken, which it is from an empty table on until a removal from the middle |
| FastHash.FastHash.IndexVisitsAll | jni/stunserver/all/fasthash.h:368-390 | The places of a valid index are the live nodes, each exactly once |
| FastHash.FastHash.ValueAt | jni/stunserver/all/fasthash.h:368-390 | The node of the i-th live item holds the i-th entry in order of insertion |
| FastHash.FastHash.NodesPartitioned | jni/stunserver/all/fasthash.h:239-349 | In every reachable state free nodes plus size is the capacity, and each live node lies on the chain of its key |
| PollState.AgreeRemove | jni/stunserver/all/polling.cpp:394-418 | Overwriting a slot with the last one, correcting the entry of the socket moved and removing the entry of the socket that left keeps vector and table in agreement |
| PollState.KeepRemove | jni/stunserver/all/polling.cpp:373-418 | Removal keeps the whole invariant; events pending on other sockets stay pending |
| PollState.KeepDeliver | jni/stunserver/all/polling.cpp:486-522 | Handing out an event keeps the invariant: it leaves the pending events and enters the delivered ones, which have no repetitions |
| PollState.KeepPoll | jni/stunserver/all/polling.cpp:465-478 | What poll() marks becomes the new set of pending events, counted exactly; at that moment all events of the call before were delivered once or dropped |
| Polling.CPoll.constructor | jni/stunserver/all/polling.cpp:333-344 | The table has room for the number of sockets and is as wide as the least prime that is at least that; the poller starts empty |
| Polling.CPoll.Add | jni/stunserver/all/polling.cpp:354-371 | A socket is registered once; vector and table still agree exactly when the table was not full before |
| Polling.OneTooMany | jni/stunserver/all/polling.cpp:354-371 | A poller of any size, given one socket more than it has room for, has a vector and a table that disagree |
| Polling.CPoll.Remove | jni/stunserver/all/polling.cpp:373-418 | The last socket takes the place of the one removed, only the pending event of that socket is dropped, and the invariant holds again |
| Polling.CPoll.ChangeEventSet | jni/stunserver/all/polling.cpp:420-441 | Only the event mask of that one socket changes |
| Polling.CPoll.FindNextEvent | jni/stunserver/all/polling.cpp:486-522 | Finds nothing exactly when nothing is pending; otherwise hands out the event of the first slot that has one, from the rotation on and around the end, clears it, and changes no socket and no event mask; the next scan starts one slot further on than this one |
| Polling.CPoll.WaitForNextEvent | jni/stunserver/all/polling.cpp:443-484 | poll() is called only when nothing is pending, and then every event marked by the call before has been delivered exactly once or dropped with its socket; sockets and event masks stay, and the event handed out is the next in turn of what is pending or was found |
| Polling.TurnsCycle | jni/stunserver/all/polling.cpp:486-522 | In as many deliveries as there are sockets, each slot is once the first to be looked at, wherever the rotation stood |
| Polling.FirstLookWins | jni/stunserver/all/polling.cpp:486-522 | A slot that is looked at first and has an event has it handed out |
| DataStream.Buffer.SetSize | jni/stunserver/all/buffer.cpp:126-141 | Returns one or zero as the size fits or not, which is a success either way, and so always assigns |
| DataStream.Stream.Grow | jni/stunserver/all/datastream.cpp:84-131 | Fails exactly when there is no room for the bytes and growing is forbidden; a buffer that has the room is not replaced, another is at least twice as large, and the contents stay either way |
| DataStream.Stream.Write | jni/stunserver/all/datastream.cpp:138-169 | Fails for nothing to write, or without room and forbidden to grow; otherwise overwrites from the cursor and appends what does not fit, and the size never exceeds the allocation |
| DataStream.Stream.Read | jni/stunserver/all/datastream.cpp:67-82 | All of the bytes asked for, or none and the cursor stays |
| DataStream.Stream.SeekDirect | jni/stunserver/all/datastream.cpp:187-205 | Moves exactly to positions up to the size |
| DataStream.Stream.Attach | jni/stunserver/all/datastream.cpp:55-65 | Takes over the caller's buffer; for writing, from the start |
| StunFormat.TypeFieldRoundTrip | jni/stunserver/all/stunbuilder.cpp:47-66 | Type and class spread over the type field come back from any message that begins with it, and its two top bits are zero |
| StunFormat.GrammarUnique | jni/stunserver/all/stunreader.cpp:609-703 | A message can be read in one way only |
| StunFormat.InBounds | jni/stunserver/all/stunreader.cpp:609-703 | The recorded attributes lie within the message, each behind its own header |
| StunFormat.ErrorSticks | jni/stunserver/all/stunreader.cpp:705-773 | No further bytes repair a rejected message, and none may follow a complete one |
| StunFormat.DriverNeverOverfeeds | jni/stunserver/all/stunreader.cpp:69-84 | A driver that feeds no more than was asked for never feeds too much, makes progress when it feeds just that, and is asked for nothing exactly in the two final states |
| StunFormat.DriverStopsAtMessage | jni/stunserver/all/stunreader.cpp:69-84 | Such a driver, reading a message from a longer stream, is never led past the end of the message |
| StunMessage.RoundTrip | jni/stunserver/all/stunbuilder.cpp:47-195 | Every message within the reader's limits is accepted, and its type, class, transaction id and attributes come back, attribute by attribute |
| Acceptance.AcceptedIsWritten | jni/stunserver/all/stunreader.cpp:541-703 | The converse: every message the reader accepts, with either cookie rule, is within the limits and is what the builder writes for its type, class, id and attributes, except for the padding, which may be anything |
| Acceptance.AcceptedExactly | jni/stunserver/all/stunreader.cpp:541-703 | The reader accepts bytes with certain attributes if and only if they are, but for padding, a message within the limits written by the builder with attributes in these places |
| WireFormat.SampleResponse | jni/stunserver/all/stunbuilder.cpp:47-390 | The bytes of the sample response of RFC 5769 section 2.2, as far as its address |
| WireFormat.PaddingOfFormats | jni/stunserver/all/stunbuilder.cpp:157-195 | In the older format the announced length is a multiple of four and counts the padding; apart from it the attribute has the same bytes in both formats |
| WireFormat.ErrorValueIs | jni/stunserver/all/stunbuilder.cpp:211-262 | Two zero bytes, the hundreds, the rest below a hundred, and the reason |
| StunMessage.AddIntegrityIs | jni/stunserver/all/stunbuilder.cpp:468-506 | Appending a zero digest, patching the length and hashing gives the message with the digest of the whole message of that length |
| StunMessage.AddFingerprintIs | jni/stunserver/all/stunbuilder.cpp:412-450 | The same for the fingerprint, which covers all that precedes it with the final length |
| Integrity.IntegrityAccepted | jni/stunserver/all/stunreader.cpp:138-237 | The digest the builder appends passes the reader's check, for any digest function and any key |
| Integrity.IntegrityStillAccepted | jni/stunserver/all/stunreader.cpp:138-237 | It still passes after a fingerprint was added and the length patched once more |
| Integrity.FingerprintAccepted | jni/stunserver/all/stunreader.cpp:92-131 | The fingerprint the builder appends passes the reader's check |
| Integrity.TrailersAccepted | jni/stunserver/all/stunbuilder.cpp:412-506 | A message within the limits closed with a digest, and a fingerprint or not, is a valid message and passes both checks |
| TrailerChecks.LastPassesExactly | jni/stunserver/all/stunreader.cpp:138-237 | In an accepted message that ends in an integrity attribute the check passes if and only if the attribute has twenty bytes, there is a key, and the message is what the builder makes of the bytes before the attribute and the key |
| TrailerChecks.NextToLastPassesExactly | jni/stunserver/all/stunreader.cpp:138-237 | With a fingerprint of four bytes behind it, the same of the message without the fingerprint and with the length it then has |
| TrailerChecks.ElsewhereNothingPasses | jni/stunserver/all/stunreader.cpp:138-237 | Without a key, at any other place or with another size the check fails |
| TrailerChecks.OneDigestPasses | jni/stunserver/all/stunreader.cpp:226-228 | Of all messages that differ only in the twenty bytes of the digest at most one passes under a key |
| TrailerChecks.FingerprintPassesExactly | jni/stunserver/all/stunreader.cpp:92-131 | In an accepted message that ends in a fingerprint attribute the check passes if and only if the attribute has four bytes and the message is what the builder makes of the bytes before it |
| FingerprintPlace.FingerprintCovers | jni/stunserver/all/stunreader.cpp:92-131 | In any valid message with a fingerprint of four bytes, what is checksummed is what precedes the attribute if and only if it is the last one; one empty attribute behind it adds its own header, and anything more adds the value to be checked |
| FingerprintPlace.VerdictExact | jni/stunserver/all/stunreader.cpp:92-131 | The reader's verdict is the one of RFC 5389 section 15.5 for every checksum function if and only if the fingerprint is the last attribute |
| FingerprintPlace.EarlyFingerprintAccepted | jni/stunserver/all/stunreader.cpp:92-131 | For every checksum and every message there is a fingerprint value that the reader accepts although one more attribute follows it |
| SocketAddress.XorMapTwice | jni/stunserver/all/socketaddress.cpp:180-209 | Masking port and address twice with one transaction id gives them back |
| SocketAddress.ApplyStunXorMap | jni/stunserver/all/socketaddress.cpp:180-209 | The loop masks port and address with the start of the transaction id |
| SocketAddress.SameIsEqual | jni/stunserver/all/socketaddress.cpp:229-258 | Same address and port is equality |
| SocketAddress.AddressRoundTrip | jni/stunserver/all/stunutils.cpp:33-71 | An address encoded as an attribute value decodes to itself |
| SocketAddress.GetMappedAddress | jni/stunserver/all/stunutils.cpp:33-71 | The reading through the stream is the decoding, including what is too short and which family is taken for which |
| ReplyReading.DecodedExactly | jni/stunserver/all/stunutils.cpp:33-71 | A value decodes to an address if and only if port and ip stand behind the family byte, which is one for the shorter and anything else for the longer; more bytes may follow |
| StunReader.Reader.AddBytes | jni/stunserver/all/stunreader.cpp:705-773 | However the bytes were cut, the state is a function of all bytes fed taken together, and so are, short of an error, the recorded fields and attributes |
| StunReader.Reader.ReadHeader | jni/stunserver/all/stunreader.cpp:541-607 | Accepts exactly the valid headers and records their fields |
| StunReader.Reader.ReadBody | jni/stunserver/all/stunreader.cpp:609-703 | Succeeds exactly when some list of at most thirty attributes tiles the body, and records that list in order, with the two trailers noted |
| StunReader.NextAttribute | jni/stunserver/all/stunreader.cpp:624-690 | Whatever stops the loop at some place rules out every reading of the message |
| StunReader.Reader.ReadAttribute | jni/stunserver/all/stunreader.cpp:624-690 | One turn of the loop records an attribute exactly if its header is there, its value is not too long and there are fewer than thirty, and goes on exactly if value and padding are there too |
| StunReader.Reader.HowManyBytesNeeded | jni/stunserver/all/stunreader.cpp:69-84 | Asks for what is missing of the header, then of the body, then nothing |
| StunReader.Reader.Reset | jni/stunserver/all/stunreader.cpp:40-56 | Ready for a new message with nothing recorded |
| StunReader.Reader.GetAttributeByType | jni/stunserver/all/stunreader.cpp:317-332 | In any state, the last attribute of that type among those recorded so far; when the message is complete these are its attributes |
| StunReader.Reader.GetAttributeByIndex | jni/stunserver/all/stunreader.cpp:301-315 | In any state, the attribute at that place of those recorded so far, although the table goes through its index |
| StunReader.Reader.RecordedAfterError | jni/stunserver/all/stunreader.cpp:609-703 | After a parse error, all recorded attributes but the last lie within the bytes there are, and the last one does if and only if it was read to its end, padding included |
| StunReader.Reader.GetOtherAddress | jni/stunserver/all/stunreader.cpp:468-482 | The other address, or else the changed address of the older format; before the body is complete, none; after an error, what was recorded, if it lies within the bytes there are |
| StunReader.Reader.GetXorMappedAddress | jni/stunserver/all/stunreader.cpp:484-501 | The masked address of either type, unmasked with the message's own transaction id; before the body is complete, none; after an error, what was recorded, if it lies within the bytes there are |
| StunReader.Reader.HashedBytes | jni/stunserver/all/stunreader.cpp:179-226 | The pieces fed to the digest are together the message before the attribute with the adjusted length |
| StunReader.Reader.ValidateMessageIntegrity | jni/stunserver/all/stunreader.cpp:138-237 | True exactly for the messages Integrity.IntegrityValid describes |
| StunReader.Reader.IsFingerprintAttributeValid | jni/stunserver/all/stunreader.cpp:92-131 | True exactly for the messages Integrity.FingerprintValid describes |
| StunBuilder.Builder.AddHeader | jni/stunserver/all/stunbuilder.cpp:47-66 | Appends the type field and a zero length, whatever the stream holds |
| StunBuilder.Builder.AddAttribute | jni/stunserver/all/stunbuilder.cpp:157-195 | Appends header, value and zero padding; in legacy mode the announced size counts the padding |
| StunBuilder.Builder.AddErrorCode | jni/stunserver/all/stunbuilder.cpp:211-262 | Refuses numbers outside 300 to 600 and long reasons; otherwise appends class, number and reason |
| StunBuilder.Builder.AddMappedAddressImpl | jni/stunserver/all/stunbuilder.cpp:365-390 | Appends an address attribute that decodes to the address |
| StunBuilder.Builder.AddXorMappedAddress | jni/stunserver/all/stunbuilder.cpp:301-309 | Appends the address masked with the transaction id added before, under the type of the mode |
| StunBuilder.Builder.AddRandomTransactionId | jni/stunserver/all/stunbuilder.cpp:85-144 | The id is the cookie and twelve more bytes, which may be any; it is stored for the masking of addresses |
| StunBuilder.Builder.AddChangeRequest | jni/stunserver/all/stunbuilder.cpp:392-408 | Appends the two flags as a big-endian word |
| StunBuilder.Builder.FixLengthField | jni/stunserver/all/stunbuilder.cpp:569-592 | Patches the length in place and returns to where it was; refuses less than a header |
| StunBuilder.Builder.AddMessageIntegrityImpl | jni/stunserver/all/stunbuilder.cpp:468-506 | Computes StunMessage.AddIntegrity in the stream, however little the stream holds, without moving a buffer that has room |
| StunBuilder.Builder.AddFingerprintAttribute | jni/stunserver/all/stunbuilder.cpp:412-450 | Computes StunMessage.AddFingerprint in the stream; fails exactly when the bytes before it and the attribute are less than a header |
| HandlerProofs.ReplyAccepted | jni/stunserver/all/messagehandler.cpp:39-199 | Whatever the request, the reply is accepted by the reader, carries the request's transaction id, is a success or a failure response and has at most 172 bytes |
| HandlerLaws.ReplyHasType | jni/stunserver/all/messagehandler.cpp:77-199 | Every reply has the type of its request |
| HandlerLaws.ReplyKeepsFormat | jni/stunserver/all/messagehandler.cpp:86-104 | A request without the cookie is answered with attributes of the older format only, and any other with those of the newer |
| HandlerProofs.SuccessDecodes | jni/stunserver/all/messagehandler.cpp:330-345 | A success reply decodes to the sender's address in the plain and in the masked form, for either format of the request |
| HandlerProofs.SuccessOffersOther | jni/stunserver/all/messagehandler.cpp:274-341 | It offers the address of the socket with the other ip and the other port exactly when all four sockets are there and that address is known |
| HandlerLaws.SuccessTellsOrigin | jni/stunserver/all/messagehandler.cpp:271-322 | It names the address of the socket it leaves from: the configured one, or the local one if that is unknown and the socket was the one asked; or none if that is unknown too |
| HandlerProofs.SuccessIsSigned | jni/stunserver/all/messagehandler.cpp:346-360 | A request that proved its key gets a reply that passes the integrity check under the same key |
| HandlerLaws.SignedExactly | jni/stunserver/all/messagehandler.cpp:346-360 | A reply is signed if and only if it serves a request whose digest passed under the key that the provider named, and it passes the check under that key |
| HandlerLaws.SignedIsServed | jni/stunserver/all/messagehandler.cpp:413-443 | A request signed with the password, or with the MD5 digest of its own user, realm and that password with colons between, is served and answered under the same key |
| HandlerProofs.ErrorDecodes | jni/stunserver/all/messagehandler.cpp:159-199 | An error reply decodes to the code decided on and has the type of the request |
| HandlerLaws.ServedExactly | jni/stunserver/all/messagehandler.cpp:366-453 | Of the binding requests that the provider decides about, just those are served that there is no provider for, that it allows, or that it allows under a digest that passes; if the binding itself can be served |
| HandlerLaws.CodesExactly | jni/stunserver/all/messagehandler.cpp:396-443 | The finished error reply says 438 exactly for a stale nonce, 401 exactly for an answer that says so or a digest that fails, and otherwise 400 |
| HandlerLaws.OthersRefused | jni/stunserver/all/messagehandler.cpp:106-127 | A request of another type, or for a response port over a connection, is refused with 400 |
| HandlerLaws.ChallengeEchoes | jni/stunserver/all/messagehandler.cpp:179-188 | The texts of nonce and realm found in a 401 or 438 reply are those of the provider, where they are not empty; a 400 reply has neither |
| HandlerLaws.ProviderIsAsked | jni/stunserver/all/messagehandler.cpp:366-390 | The provider sees the user, realm, nonce and password of the request, each in its place, and whether it has an integrity attribute |
| HandlerLaws.RefusedExactly | jni/stunserver/all/messagehandler.cpp:228-270 | A binding request is refused exactly if it asks for a port and has padding, or asks for a change over a connection or to a socket that is not there |
| HandlerLaws.ReplyMoves | jni/stunserver/all/messagehandler.cpp:228-262 | A success reply leaves from the socket with the other ip exactly if bit 2 of the flags says so and with the other port exactly if bit 1 does; a refusal from where the request came in |
| HandlerLaws.ReplyGoesToPort | jni/stunserver/all/messagehandler.cpp:101-117 | The reply goes to the port asked for on the sender's address; over a connection the request is refused |
| HandlerLaws.ReplyGoesBack | jni/stunserver/all/messagehandler.cpp:101-117 | Without a port of two bytes that is not zero it goes to the sender |
| MessageHandler.Handler.ValidateAuth | jni/stunserver/all/messagehandler.cpp:366-453 | Decides what HandlerSpec.Authenticate says, with the strings to echo and the key to sign with |
| MessageHandler.Handler.BuildErrorResponse | jni/stunserver/all/messagehandler.cpp:159-199 | The buffer holds the finished error reply: the code, and for a challenge the nonce and the realm that are not empty |
| MessageHandler.Handler.ChooseSocket | jni/stunserver/all/messagehandler.cpp:228-266 | Refuses, and chooses the socket, as HandlerSpec.BindingRefused and OutputRole say |
| MessageHandler.Handler.ProcessBindingRequest | jni/stunserver/all/messagehandler.cpp:202-363 | The buffer holds the finished success reply of the request, or the request is refused, the code is that of a bad request and the buffer is emptied |
| MessageHandler.Handler.ProcessRequestImpl | jni/stunserver/all/messagehandler.cpp:77-156 | Ignores what is not a request; for every request the buffer holds its reply and the two destination fields are set |
| MessageHandler.ProcessRequest | jni/stunserver/all/messagehandler.cpp:39-75 | Succeeds exactly for a validated request and a large enough buffer; the reply is then HandlerSpec.Reply in the caller's own memory |
| ClientSpec.TurnProgress | jni/stunserver/all/stunclientlogic.cpp:154-214 | Every turn of the loop without an answer passes a test or completes one, so GetNextMessage terminates |
| ClientRuns.ReplySummary | jni/stunserver/all/stunclienttests.cpp:139-188 | What a test records from its response is what the summary makes of the response |
| ClientRuns.ReadyIsRunnable | jni/stunserver/all/stunclienttests.cpp:222-234 | A test not settled early is ready exactly when the responses before it give it reason to run |
| ClientRuns.NextSound | jni/stunserver/all/stunclientlogic.cpp:139-215 | GetNextMessage keeps the invariant and answers that the results are ready exactly when all tests are over |
| ClientRuns.RunSound | jni/stunserver/all/stunclientlogic.cpp:139-239 | In every run, after every call, the results are a function of the responses taken and of the number of tests over |
| ClientRuns.ResultsAre | jni/stunserver/all/stunclientlogic.cpp:139-215 | When the results are ready they are the summary of the responses taken |
| ClientRuns.ReadyIsFinal | jni/stunserver/all/stunclientlogic.cpp:157-161 | Once the results are ready no call changes them or sends anything |
| ClientRuns.RunRequests | jni/stunserver/all/stunclientlogic.cpp:139-215 | In every run, of the tests behind the first that are over, exactly those with reason to run have sent a request; the first test is in ClientRequests.ResponsesAnswerRequests |
| ClientRequests.ResponsesAnswerRequests | jni/stunserver/all/stunclienttests.cpp:54-87 | In every run each response taken answers a request that its test has sent, if and only if no valid message with an id of zeros and a decodable mapped address came before the first call of GetNextMessage; otherwise the first test's response is the only one that answers nothing. The first test has sent a request if and only if GetNextMessage was called and no such message came before |
| ClientRequests.TakenUnasked | jni/stunserver/all/stunclienttests.cpp:69-87 | Before it has sent, the first test takes exactly the valid messages with an id of zeros and one of the three mapped addresses that can be decoded |
| ClientRequests.AskingFirstIsSafe | jni/stunserver/all/stunclientlogic.cpp:139-239 | A caller whose first call is GetNextMessage never sees a response taken that answers no request |
| ClientRequests.ZeroIdTaken | jni/stunserver/all/stunclientlogic.cpp:219-239 | Before any call of GetNextMessage, a response with a transaction id of zeros is taken and its address recorded, with no request made |
| ClientRuns.SendDescribed | jni/stunserver/all/stunclientlogic.cpp:184-211 | A request has the id its test expects back; a repeated one has the same id and comes only after the timeout |
| ClientRuns.RepeatsAfterTimeout | jni/stunserver/all/stunclientlogic.cpp:184-211 | In a client so configured, a request is repeated, with its id, no sooner than the timeout, which is three seconds if none is configured |
| ClientRuns.WaitsExactly | jni/stunserver/all/stunclientlogic.cpp:184-188 | In such a client, while a test waits, a call answers so if and only if the timeout is not over |
| ClientRuns.SendsBounded | jni/stunserver/all/stunclientlogic.cpp:190-199 | No run sends more than the number of attempts, two if none are configured, times the number of tests, which is one and two more for each group |
| ClientRuns.ResultsInTime | jni/stunserver/all/stunclientlogic.cpp:139-215 | If the caller asks again only after the timeout, one call more than there can be requests finds the results ready, whatever arrives |
| ClientRuns.InstantIsPatient | jni/stunserver/all/stunclientlogic.cpp:85-92 | With an instant timeout every caller asks late enough |
| ClientVerdicts.ClassSaysComparisons | jni/stunserver/all/stunclienttests.cpp:207-316 | Each mapping class is reported if and only if the recorded addresses compare as the class says |
| ClientVerdicts.RequestGoesTo | jni/stunserver/all/stunclienttests.cpp:237-262 | At any point of any run the next request goes to the server, to its other address at the port of the first, or to its other address, as the test has it |
| ClientVerdicts.MappingClassified | jni/stunserver/all/stunclienttests.cpp:207-316 | Against a NAT of a class, with all requests answered, the class reported is the class of the NAT if and only if the server's other address differs in what that class depends on |
| ClientVerdicts.FilteringConclusive | jni/stunserver/all/stunclienttests.cpp:335-434 | If the binding test succeeded, directly or with an other address, the filtering verdict is conclusive and says which of the two tests took a response |
| ClientVerdicts.FilteringClassified | jni/stunserver/all/stunclienttests.cpp:335-434 | For every NAT and every server: the filtering class reported is that of the NAT if and only if, for a direct host, it is no filter; otherwise, for a filter by address, the other address has an ip of its own and the mapping tests of the same run have not shown an endpoint-independent mapping; for a filter by port, the other address has a port of its own |
| ClientLogic.ClientTest.GetMessage | jni/stunserver/all/stunclienttests.cpp:114-136 | The buffer holds the finished request with the test's id and change flags, and the destination is the test's |
| ClientLogic.ClientTest.BasicReaderValidation | jni/stunserver/all/stunclienttests.cpp:69-87 | Accepts exactly the valid messages with the test's transaction id |
| ClientLogic.ClientTest.ProcessResponse | jni/stunserver/all/stunclienttests.cpp:265-309 | Takes exactly the usable responses, completes the test and records what ClientSpec.ReplyResults says |
| ReplyReading.MaskedIsTaken | jni/stunserver/all/stunclienttests.cpp:150-154 | For any message within the limits whose last masked address attribute masks an address with its own id, that address is taken, whatever else the message says |
| ReplyReading.OlderMaskedIsTaken | jni/stunserver/all/stunreader.cpp:484-501 | Without one that decodes, the masked address of the older type |
| ReplyReading.PlainIsTakenLast | jni/stunserver/all/stunclienttests.cpp:150-154 | Without either, the address in the clear; and without that, none |
| ReplyReading.OtherIsTaken | jni/stunserver/all/stunreader.cpp:468-482 | The other address comes before the changed address of the older format |
| ClientLogic.ClientTest.PreRunCheck | jni/stunserver/all/stunclienttests.cpp:207-219 | A direct connection completes the second test of either kind with its result |
| ClientLogic.ClientTest.NotifyTimeout | jni/stunserver/all/stunclienttests.cpp:422-434 | A timeout completes the test; only the third filtering test concludes something from it |
| ClientLogic.ClientLogic.Initialize | jni/stunserver/all/stunclientlogic.cpp:68-136 | Works once, exactly for a server with an address and a port; the state is then ClientSpec.Start |
| ClientLogic.ClientLogic.GetNextMessage | jni/stunserver/all/stunclientlogic.cpp:139-215 | The loop over the shared objects is ClientSpec.Next, and a message to send is in the caller's buffer |
| ClientLogic.ClientLogic.ProcessResponse | jni/stunserver/all/stunclientlogic.cpp:219-239 | The step of the current test is ClientSpec.Respond |
| Interop.RequestServed | jni/stunserver/all/messagehandler.cpp:202-270 | The server serves every request of a mapping test, and that of a filtering test exactly when it has the socket asked for, from which the reply then leaves |
| Interop.ReplyRead | jni/stunserver/all/stunclienttests.cpp:69-87 | The client reads from the server's reply the address the server saw and the other address it offers; from a refusal it reads neither |
| Interop.RequestAnswered | jni/stunserver/all/stunclienttests.cpp:139-188 | The reply of the server to the request sent last is taken, with the address the server saw |
| Interop.AnsweredFromAsked | jni/stunserver/all/messagehandler.cpp:202-270 | The reply leaves from the socket the test wants it from if and only if the test asks for no change, or the socket is there and the transport is not connection oriented |
| Interop.OfferingIsServing | jni/stunserver/all/messagehandler.cpp:274-300 | A server that offers its other address to a datagram client serves every test from the socket asked for |
| Interop.FilteringTakesAnything | jni/stunserver/all/stunclienttests.cpp:335-419 | A waiting filtering test takes any valid message with its id, whatever its class and contents and wherever it came from, and reaches its verdict |
| Interop.RefusalCountsAsResponse | jni/stunserver/all/stunclienttests.cpp:335-419 | Either filtering test takes a refusal, sent from the socket the request came in on, for the response from the other socket, for either reason of the refusal |
| EndToEnd.EventsTold | jni/stunserver/all/stunclientlogic.cpp:139-239 | In every run of client, NAT and server in which replies to any request arrive in any order, late or repeatedly, and different tests drew different ids, each response taken is the server's reply to a request of that test, through the NAT's mapping and let in by its filter |
| EndToEnd.ClassesReported | jni/stunserver/all/stunclienttests.cpp:207-434 | In all these runs: when every reply that is let in has arrived, the mapping and the filtering class reported are those of the NAT if and only if the server's addresses tell the one and the run shows the other |
| EndToEnd.SameIdsMislead | jni/stunserver/all/stunclienttests.cpp:54-87 | The ids must differ: if the second mapping test draws the id of the first, a late copy of the first reply makes every NAT endpoint independent |
| EndToEnd.MappingLetIn | jni/stunserver/all/stunclienttests.cpp:237-262 | The reply to a mapping test comes from where the request went, so every NAT lets it in |
| EndToEnd.SomeRunArrives | jni/stunserver/all/stunclientlogic.cpp:139-239 | Whatever the NAT and the server's addresses, a client whose timeout is at most 4294967 seconds has a run with different ids that ends with every reply that is let in arrived |
| EndToEnd.LongTimeoutWaits | jni/stunserver/all/stunclientlogic.cpp:181-187 | With a longer timeout a test that has sent waits for its response however often the client asks |
| EndToEnd.MappingMisreported | jni/stunserver/all/stunclienttests.cpp:207-316 | Whenever the server's addresses cannot tell the mapping class, some run with every request answered reports another |
| EndToEnd.FilteringMisreported | jni/stunserver/all/stunclienttests.cpp:335-434 | Whenever the run cannot show the filtering class, some run with every reply arrived that is let in reports another |
| EndToEnd.SharedIpExample | jni/stunserver/all/stunclienttests.cpp:207-316 | Such a run against a server whose other address shares the ip, with a mapping for each ip |
| EndToEnd.AddressFilterExample | jni/stunserver/all/stunclienttests.cpp:335-434 | Such a run with both groups of tests, a filter by address and one mapping for all |

## Left out

- FindPrime: integers are unbounded; the wrap-around of `unsigned int` near its maximum is not modelled.
- Sockets, the select and connect loops, name resolution, command line, logging and printing: input and output around the modelled core.
- CEpoll: its state is in the kernel.
- The copy of the sources in `jni/stunserver/networkutils`: the same code.
- Failed allocation: every allocation succeeds.
- MessageHandler.Handler.BuildErrorResponse: the branch for an unknown attribute, since no code sets that attribute or its error code.
- Polling.CPoll.constructor: a poller for zero sockets, whose table is never set up, so that its first lookup divides by zero.
- StunReader.Reader.GetOtherAddress: after a parse error, an attribute whose value runs past the bytes there are, where the source reads on in memory; which attributes these are is in StunReader.Reader.RecordedAfterError.
- StunReader.Reader.GetXorMappedAddress: the same.
- HandlerProofs.ErrorCodeOf: none for an attribute of less than four bytes, where the source reads past its value.
- AddUnknownAttributes, AddPaddingAttribute, AddResponsePort and AddResponseOriginAddress for other callers than the handler: not reached by the properties.
- The hash table without an index list: every instance of the repository has one.
- A poller initialised while it has registrations, and Close followed by further calls: the class is set up once.
- FastHash.FastHash.Remove: the source updates the index before it returns the node to the free list, the model after; neither looks at what the other changes.
- ClientLogic.ClientLogic.ProcessResponse: takes the bytes received as a sequence, since the source does not change that buffer.
- ClientLogic.ClientLogic.Initialize: creates the test objects that the source holds as members, and only those that are listed.
- ClientVerdicts.FilteringClassified: supposes that a response the NAT lets in arrives before the timeout and that no other with its id does; EndToEnd gives the runs that meet this.
- TrailerChecks.NextToLastPassesExactly: for a fingerprint of four bytes; with one of another size behind the digest it is only said that at most one digest passes.
- Crypto: nothing is said about the strength of the digest, only that builder and reader agree.
- The shared static flag of the CRC table: a table object is filled on its first use.
