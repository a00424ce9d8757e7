# Verified core of the evo runtime

This project models the parts of the evo Lua runtime whose behaviour is hardest to see from the
code: character-level machines that stand for simple definitions, protocols over many callbacks,
and codecs that must undo each other. Each model follows the branches, constants and edge cases of
the code; what the code is for is then proved about it, for every input or for every run.

* **POSIX paths** (`Segments`, `V8`, `PathMachine`, `PathMeaning`, `PosixResolve`, `PosixRelative`,
  `PosixNames`). A path is a text; a directory is the list of names that leads to it from the root;
  *following* a path from a directory (`Walk`, `Cd`) is what a path means. The one-pass machine
  behind `normalize` and `resolve` is proved equal to splitting into segments and folding them with a
  stack. On that rest the laws: `normalize` is idempotent and keeps the meaning, `resolve` is changing
  directory, `relative` is undone by `resolve` and no way is shorter, and
  a path is its `dirname` followed by its `basename`.
* **Compact Base64** (`BitStream`, `Base64Alphabet`, `Base64`, `Base64Decoder`). `Encodes` relates
  digits and bytes as bit streams (section 4 of RFC 4648), without padding (section 3.2) and with zero
  trailing bits (section 3.5). The unrolled encoder and the streaming decoder, with accumulators that
  wrap at 32 bits, are proved against it. They are inverse to each other, and the decoder's failures
  are characterized exactly.
* **JSON encoder** (`JsonModel`, `JsonTables`, `JsonOrder`, `JsonDepth`, `JsonErrors`,
  `JsonMeaning`, `JsonEncoder`). The input is an
  arbitrary, possibly cyclic heap of tables; the output is a sequence of writer events. The recursive
  encoder, which works on the Lua stack, is proved against `Denote`, the JSON tree of a value. The
  events rebuild the tree, the tree says what the Lua value is (`Represents`), the depth error is raised
  exactly on chains of tables that are too long, and sorted output does not depend on enumeration order.
* **Web server** (`ServerProtocol`, `ServerRuns`, `WebServer`). Two registries and a queue, as a state machine over the
  networking library's callbacks and the API's calls. Which callbacks can come depends only on what the
  library knows: the handlers it was given and the sockets it holds open. Every method of the class is one
  step of the machine and keeps its invariant, which gives the ordering guarantees of every run; and over every
  run, what comes out is what went in.
* **App bundles** (`AppBundle`). Executable, archive and trailing signature; what was built can be
  decoded and every file extracted. This rests on `relative` being injective.
* **Console colours** (`Transform`, `Terminal`), **deferred callbacks** (`DeferredCallbacks`) and the
  **decompression loop** (`Uncompress`).

Code that changes things step by step is modelled by methods and classes whose `ensures` tie the result
to a specification function; the laws are lemmas about these functions. The working directory, file
contents, the order in which a hash map is enumerated, the outcome of network operations and the
decompressor are parameters.

Where the code does less than its documentation suggests, the model follows the code and says exactly
when: `basename` can return a name with separators (`PosixNames.BasenameKeepsSeparators`), sorted keys
are ordered only up to their first NUL byte (`JsonOrder.DeterminedExactly`), and stripping is complete only
around text in which no escape sequence matches (`Transform.StripTokens`).

`dafny verify dfyconfig.toml` checks the project.

## Model

| member | source | states |
|---|---|---|
| `V8.MatchRest` | Runtime/Libraries/v8.lua:47-59 | The inner loop reaches the end of the pattern exactly where it occurs |
| `V8.StringMatchBackwards` | Runtime/Libraries/v8.lua:41-64 | The result is the greatest index not above `idx` at which the pattern occurs, or -1 when it occurs at none of them; an empty pattern is never found |
| `V8.StringLastIndexOf` | Runtime/Libraries/v8.lua:66-94 | The same for an index that may point past the last possible occurrence |
| `V8.StringPrototypeLastIndexOf` | Runtime/Libraries/v8.lua:96-133 | `lastIndexOf` as in JavaScript: the last occurrence at or before the (optional, clamped) position |
| `Sequences.Slice` | Runtime/Libraries/path.lua:73-80 | Slicing is the subsequence; an end beyond the text is clipped to it, and a start at or beyond either end gives nothing |
| `PathMachine.ReadCharacter` | Runtime/Libraries/path.lua:107-172 | What one more character does to `lastSlash` and `dots`: it ends the current segment or grows it |
| `PathMachine.DotsMeaning` | Runtime/Libraries/path.lua:168-172 | The dot counter is 1 exactly in ".", 2 exactly in "..", 0 exactly in the empty segment |
| `PathMachine.LastSeparator` | Runtime/Libraries/path.lua:129-136 | In the text of a stack of segments, the backward search finds where the last segment begins |
| `PathMachine.StepBack` | Runtime/Libraries/path.lua:121-154 | ".." drops the last kept name, else is kept if climbing above the root is allowed and ignored if not; `res` and `lastSegmentLength` follow the stack |
| `PathMachine.EndSegment` | Runtime/Libraries/path.lua:117-167 | A complete segment changes `res` and `lastSegmentLength` as folding it into the stack does |
| `PathMachine.NormalizeString` | Runtime/Libraries/path.lua:100-176 | For every path and separator predicate the one-pass machine computes: split on separators, fold with a stack, join |
| `Segments.FoldNormal` | Runtime/Libraries/path.lua:99-176 | Folding leaves real names, behind ".." only where climbing above the root is allowed |
| `Segments.FoldIsWalkFromRoot` | Runtime/Libraries/path.lua:99-176 | Without climbing above the root, folding is walking from the root |
| `Segments.FoldKeepsWalk` | Runtime/Libraries/path.lua:99-176 | With it, the folded segments lead where the original ones lead, from every directory |
| `Segments.NormalIsUnique` | Runtime/Libraries/path.lua:99-176 | Normal lists of segments that lead to the same place from every directory are equal |
| `PosixResolve.Normalize` | Runtime/Libraries/path.lua:1053-1079 | The method computes `NormalizedPath` |
| `PosixResolve.NormalizedShape` | Runtime/Libraries/path.lua:1053-1079 | Absoluteness is preserved; a trailing separator is there exactly if it was before or the result is the root; the steps are the folded ones |
| `PosixResolve.NormalizeIdempotent` | Runtime/Libraries/path.lua:1053-1079 | Normalizing twice is normalizing once |
| `PosixResolve.NormalizeKeepsMeaning` | Runtime/Libraries/path.lua:1053-1079 | From every directory, the normalized path leads where the path leads |
| `PosixResolve.NormalizedPieces` | Runtime/Libraries/path.lua:1053-1079 | The pieces of the text are exactly the kept segments, with one separator in front if absolute and one behind if there was one; where nothing is kept the text is "/", "./" or "." |
| `PosixResolve.NormalizeDecidesMeaning` | Runtime/Libraries/path.lua:1053-1079 | Two paths normalize to the same text if and only if they agree in being absolute and in the trailing separator (or name the root) and lead to the same place from every directory |
| `PosixResolve.Gather` | Runtime/Libraries/path.lua:1166-1189 | Normalizing what the backward loop has put together gives the resolution of all arguments |
| `PosixResolve.Resolve` | Runtime/Libraries/path.lua:1159-1201 | Fails exactly without arguments; from an absolute working directory the result is the text of the directory reached by changing through the arguments in order, ".." clamped at the root |
| `PosixResolve.ResolutionIsCd` | Runtime/Libraries/path.lua:1159-1201 | Gathering backwards up to the last absolute argument is the same as changing directory forwards |
| `PosixResolve.ResolvedIsCanonical` | Runtime/Libraries/path.lua:1159-1201 | Resolved paths are absolute and normalized |
| `PosixResolve.ResolveInTwoSteps` | Runtime/Libraries/path.lua:1159-1201 | resolve(resolve(a...), b...) is resolve(a..., b...) |
| `PosixResolve.ResolutionLeads` | Runtime/Libraries/path.lua:1159-1201 | Even from a relative working directory, the result is normalized and leads, from every directory, where the paths lead in turn |
| `PosixRelative.LongestCommonPath` | Runtime/Libraries/path.lua:1259-1272 | The comparison loop finds where the two texts part and the last separator before that |
| `PosixRelative.Compare` | Runtime/Libraries/path.lua:1252-1296 | Answers at once exactly when `to` is below `from`; else says where to cut the texts |
| `PosixRelative.ClimbOut` | Runtime/Libraries/path.lua:1298-1305 | One ".." per segment of `from` behind the cut |
| `PosixRelative.Relative` | Runtime/Libraries/path.lua:1233-1310 | The relative path is one ".." per segment of `from` beyond the common prefix, then the rest of `to`, on the resolved directories |
| `PosixRelative.CommonPrefixIsLongest` | Runtime/Libraries/path.lua:1259-1272 | The prefix that is left out is common to both and the longest such |
| `PosixRelative.RelativeIsShortest` | Runtime/Libraries/path.lua:1233-1310 | No list of steps that leads from the one directory to the other is shorter than the relative path |
| `PosixRelative.ResolveAfterRelative` | Runtime/Libraries/path.lua:1233-1310 | resolve(from, relative(from, to)) is resolve(to), for all texts and every working directory |
| `PosixRelative.RelativeInjective` | Runtime/Libraries/path.lua:1233-1310 | From one directory, targets with the same relative path are the same target |
| `PosixRelative.ResolveBothWays` | Runtime/Libraries/path.lua:1159-1310 | Calling `relative` and then `resolve` returns the very path that resolving `to` returns |
| `PosixNames.Dirname` | Runtime/Libraries/path.lua:926-959 | The method computes the text before the last non-empty segment, with the root, "." and "//" cases |
| `PosixNames.BaseIsLastSegment` | Runtime/Libraries/path.lua:961-1044 | The base name is separator-free, starts at a separator or at the beginning, and only separators follow it |
| `PosixNames.DirnameThenBasename` | Runtime/Libraries/path.lua:926-1044 | The steps of a path are those of its directory name, then its base name; the directory name is absolute exactly if the path is |
| `PosixNames.DirnameText` | Runtime/Libraries/path.lua:926-959 | Directory name, one separator, base name and only separators give the path back; where the text before the base name is too short for that, the result is "/", "//" or "." |
| `PosixNames.ResolveDirnameBasename` | Runtime/Libraries/path.lua:926-1044 | Following directory name and base name in turn leads where the path leads, from every directory |
| `PosixNames.Basename` | Runtime/Libraries/path.lua:961-1044 | The method computes the base name, without the extension if it properly ends in it |
| `PosixNames.BasenameMeaning` | Runtime/Libraries/path.lua:961-1044 | What is cut off is the extension, exactly if the base name properly ends in it; the extension that is the whole path leaves nothing; otherwise the base name stays |
| `PosixNames.ReadBase` | Runtime/Libraries/path.lua:980-1015 | The backward loop finds where the base name starts and ends and how far the extension agrees with its end |
| `PosixNames.StripExtension` | Runtime/Libraries/path.lua:976-1023 | The loop that matches the extension backwards decides by suffix: cut it off, keep the base name, or keep trailing separators |
| `PosixNames.Extname` | Runtime/Libraries/path.lua:1081-1142 | The method computes the extension of the base name |
| `PosixNames.ExtensionMeaning` | Runtime/Libraries/path.lua:1081-1142 | There is an extension exactly when a dot follows the first character, except in ".."; it starts with its only dot |
| `PosixNames.ExtensionRoundTrip` | Runtime/Libraries/path.lua:961-1142 | basename(p, extname(p)) .. extname(p) is basename(p) |
| `PosixNames.JoinExtension` | Runtime/Libraries/path.lua:961-1142 | Calling `extname` and `basename` and joining what they return gives what `basename` alone returns |
| `PosixNames.ResolveParts` | Runtime/Libraries/path.lua:926-1201 | Resolving what `dirname` and `basename` return gives what resolving the path returns |
| `PosixNames.BasenameKeepsSeparators` | Runtime/Libraries/path.lua:1017-1022 | A base name contains separators exactly when the path ends in one and the extension, no longer than the path, properly ends in the whole base name |
| `PosixNames.BasenameKeepsSeparatorsExample` | Runtime/Libraries/path.lua:1017-1022 | basename("a/", "ba") is "a/" |
| `Base64Alphabet.EQ` | Runtime/Bindings/FFI/crypto/crypto_argon2.hpp:25 | On bytes, all bits set exactly for equal operands |
| `Base64Alphabet.GT` | Runtime/Bindings/FFI/crypto/crypto_argon2.hpp:26 | On bytes, all bits set exactly if the first operand is greater |
| `Base64Alphabet.GE` | Runtime/Bindings/FFI/crypto/crypto_argon2.hpp:27 | On bytes, all bits set exactly if the first operand is not less |
| `Base64Alphabet.LE` | Runtime/Bindings/FFI/crypto/crypto_argon2.hpp:29 | On bytes, all bits set exactly if the first operand is not greater |
| `Base64Alphabet.CharToBytePosition` | Runtime/Bindings/FFI/crypto/crypto_argon2.cpp:33-38 | The branch-free expression is the position in Table 1 of RFC 4648 for its 64 characters and 0xFF for all others |
| `Base64Alphabet.CharactersRoundTrip` | Runtime/Bindings/FFI/crypto/crypto_argon2.cpp:25-38 | The two character conversions undo each other |
| `BitStream.ShiftIn` | Runtime/Bindings/FFI/crypto/crypto_argon2.cpp:77-78 | Shifting a group into an accumulator that wraps at 32 bits keeps all pending bits |
| `BitStream.WriteGroup` | Runtime/Bindings/FFI/crypto/crypto_argon2.cpp:79-82 | Shifting right and masking takes out exactly the oldest pending bits |
| `Base64.EncodesUnique` | Runtime/Bindings/FFI/crypto/crypto_argon2.cpp:40-126 | Encodings and byte strings are in bijection |
| `Base64.BytewiseEncodes` | Runtime/Bindings/FFI/crypto/crypto_argon2.cpp:76-87 | The byte-at-a-time loop alone yields the encoding of every byte string |
| `Base64.EncodeThree` | Runtime/Bindings/FFI/crypto/crypto_argon2.cpp:63-73 | A round of the unrolled loop keeps: what is read is what is written, then what is pending |
| `Base64.EncodeOne` | Runtime/Bindings/FFI/crypto/crypto_argon2.cpp:76-83 | So does a round of the tail loop |
| `Base64.EncodeLast` | Runtime/Bindings/FFI/crypto/crypto_argon2.cpp:85-89 | The last digit and the NUL complete the same digits as the byte-at-a-time loop |
| `Base64.ToBase64` | Runtime/Bindings/FFI/crypto/crypto_argon2.cpp:40-90 | Fails exactly if the buffer cannot hold the characters and a NUL, then writes nothing; else writes exactly the byte-at-a-time encoding and one NUL, nothing behind them |
| `Base64Decoder.FromBase64` | Runtime/Bindings/FFI/crypto/crypto_argon2.cpp:92-126 | Succeeds exactly if the alphabet prefix has no dangling digit, leaves only zero bits and fits; then the buffer holds bytes that the prefix encodes, and nothing behind them is touched |
| `Base64Decoder.AcceptedAreEncodings` | Runtime/Bindings/FFI/crypto/crypto_argon2.cpp:92-126 | What is accepted is exactly what encodes some byte string that fits, and only one |
| `Base64Decoder.DecodeUndoesEncode` | Runtime/Bindings/FFI/crypto/crypto_argon2.cpp:40-126 | The encoder's output is accepted and decodes to the original bytes and nothing else |
| `Base64Decoder.EncodeUndoesDecode` | Runtime/Bindings/FFI/crypto/crypto_argon2.cpp:40-126 | Encoding what was decoded gives back exactly the digits that were read |
| `Base64Decoder.EncodeThenDecode` | Runtime/Bindings/FFI/crypto/crypto_argon2.cpp:40-126 | Calling the encoder and then the decoder on the buffer it wrote always succeeds and returns the original bytes and length, nothing behind them touched |
| `JsonEncoder.Encoder.Encode` | Runtime/Bindings/rapidjson.hpp:244-258 | What is written reads back as a tree that says what the Lua value is, and the stack is as it was; if what is nested in the value can be encoded and the stack is large enough, the only error is "nested too depth", raised exactly on chains of tables longer than the limit |
| `JsonEncoder.Encoder.EncodeValue` | Runtime/Bindings/rapidjson.hpp:99-142 | Writes the events of the value's JSON tree and leaves the Lua stack as it was, or raises the tree's error |
| `JsonEncoder.Encoder.EncodeTable` | Runtime/Bindings/rapidjson.hpp:145-182 | The same for a table, after the depth and stack checks |
| `JsonEncoder.Encoder.CollectKeys` | Runtime/Bindings/rapidjson.hpp:164-179 | Collects the string keys in enumeration order and leaves the stack as it was |
| `JsonEncoder.Encoder.EncodeObject` | Runtime/Bindings/rapidjson.hpp:185-206 | An object in enumeration order: string keys only |
| `JsonEncoder.Encoder.EncodeSorted` | Runtime/Bindings/rapidjson.hpp:209-227 | An object in the order that `std::sort`, of which no more is assumed, gives its keys; values looked up by key |
| `JsonEncoder.Encoder.EncodeArray` | Runtime/Bindings/rapidjson.hpp:230-242 | An array: all elements up to the raw length |
| `JsonModel.EventsRebuildValue` | Runtime/Bindings/rapidjson.hpp:99-242 | The event stream is balanced and rebuilds exactly the encoded tree, with string keys in objects and none in arrays |
| `JsonTables.KeysInOrder` | Runtime/Bindings/rapidjson.hpp:185-227 | The keys of an encoded object are ascending if sorted, else in the order of the table |
| `JsonErrors.ErrorIsFirstObstacle` | Runtime/Bindings/rapidjson.hpp:99-147 | Encoding fails with an error if and only if that is the first obstacle on the way through the tables (a number that is not finite, a value that cannot be encoded, excessive depth, too little stack), and succeeds if and only if there is none |
| `JsonDepth.TooDeepExactly` | Runtime/Bindings/rapidjson.hpp:145-147 | If what is nested in the value can be encoded and the stack is large enough, "nested too depth" is raised exactly when some chain of nested tables is longer than the depth left; otherwise nothing fails |
| `JsonDepth.TooDeepIsError` | Runtime/Bindings/rapidjson.hpp:145-147 | A chain that is too long is an error whatever else the tables hold and however small the stack is |
| `JsonDepth.CyclicIsNeverEncoded` | Runtime/Bindings/rapidjson.hpp:145-147 | A value from which a cycle of tables can be reached is never encoded, whatever the depth limit |
| `JsonOrder.LessIsDictionaryOrder` | Runtime/Bindings/rapidjson.hpp:37-46 | One key is less than another if and only if, up to the first NUL, it is a proper prefix or has the smaller character where they first differ |
| `JsonOrder.LessIsOrder` | Runtime/Bindings/rapidjson.hpp:37-46 | So keys are strictly weakly ordered, and ties are the keys that agree up to their first NUL |
| `JsonOrder.SortIsDetermined` | Runtime/Bindings/rapidjson.hpp:214 | Every sorting of distinct keys gives the same sequence if and only if no two of them agree up to their first NUL |
| `JsonOrder.TwinsExample` | Runtime/Bindings/rapidjson.hpp:37-46 | Two keys that differ only behind a NUL may come out in either order |
| `JsonOrder.SortedOrderIndependent` | Runtime/Bindings/rapidjson.hpp:158-227 | With sorted keys the whole outcome is the same for every enumeration order of every table at every depth and for every implementation of the sort, if no object reached has keys that agree up to a NUL |
| `JsonOrder.DeterminedExactly` | Runtime/Bindings/rapidjson.hpp:158-227 | Where encoding with sorted keys succeeds, every sort gives the same outcome if and only if no object reached has two keys that agree up to a NUL |
| `JsonMeaning.EncodingRepresents` | Runtime/Bindings/rapidjson.hpp:99-242 | What is encoded, sorted or not, says what the Lua value is: array elements in order, object keys exactly the string keys, each with its own value |
| `JsonMeaning.MeaningIsUnique` | Runtime/Bindings/rapidjson.hpp:99-242 | A Lua value has at most one such meaning |
| `JsonMeaning.EncodingsMeanTheSame` | Runtime/Bindings/rapidjson.hpp:158-227 | Any two encodings of a value mean the same, whatever the options, the sort and the enumeration order, keys with NUL included |
| `JsonMeaning.SortingKeepsOutcome` | Runtime/Bindings/rapidjson.hpp:158-227 | If what is nested in the value can be encoded and the stack is large enough, sorting also does not change whether encoding succeeds |
| `ServerProtocol.StepKeepsInv` | Runtime/Bindings/FFI/WebServer.cpp:161-417 | Every callback and call keeps: HTTP registry = started and neither ended nor aborted; websocket registry = opened and not purged, null exactly for closed ones; open sockets = opened and not closed; handlers only for started requests; delivered then queued events = emitted events |
| `ServerProtocol.EveryRunIsSafe` | Runtime/Bindings/FFI/WebServer.cpp:161-417 | This holds in every run, and every observation in it was allowed when it happened |
| `ServerProtocol.HandlersStep` | Runtime/Bindings/FFI/WebServer.cpp:195-201 | Callback handlers may be set only once the start of the request has been queued; after that the library may call back at any time |
| `ServerProtocol.LiveIsOpen` | Runtime/Bindings/FFI/WebServer.cpp:231-251 | A registry entry that is not null belongs to an open socket, so sending and closing reach one |
| `ServerProtocol.NothingAfterFinish` | Runtime/Bindings/FFI/WebServer.cpp:355-417 | No operation reaches a response after it was ended or aborted; it is ended at most once |
| `ServerProtocol.NothingAfterEnd` | Runtime/Bindings/FFI/WebServer.cpp:203-211 | After HTTP_END there is no HTTP_DATA and no second HTTP_END of the request |
| `ServerProtocol.NothingAfterClose` | Runtime/Bindings/FFI/WebServer.cpp:172-193 | After its close event there is no message from a client, none is sent to it, and it is not closed again |
| `ServerProtocol.StartComesFirst` | Runtime/Bindings/FFI/WebServer.cpp:195-224 | HTTP_START precedes every other event of its request, the setting of its handlers and every operation on its response |
| `ServerProtocol.ShutdownEffect` | Runtime/Bindings/FFI/WebServer.cpp:30-47 | Shutdown while listening empties both registries and emits one CLOSE per connected client, then one SHUTDOWN |
| `ServerProtocol.ShutdownQueue` | Runtime/Bindings/FFI/WebServer.cpp:30-47 | Exactly these events are appended to the queue |
| `ServerProtocol.LiveInExactly` | Runtime/Bindings/FFI/WebServer.cpp:240-251 | The clients closed at shutdown are the connected ones, once each |
| `ServerProtocol.CloseLiveSockets` | Runtime/Bindings/FFI/WebServer.cpp:240-251 | Closing clients never changes the key set that is iterated over |
| `ServerProtocol.PurgeEffect` | Runtime/Bindings/FFI/WebServer.cpp:253-268 | Purging removes exactly the faded clients |
| `ServerProtocol.BroadcastEffect` | Runtime/Bindings/FFI/WebServer.cpp:292-332 | A broadcast sends the message exactly once to every connected client and changes nothing else |
| `ServerRuns.RunIsReported` | Runtime/Bindings/FFI/WebServer.cpp:15-224 | In every run, for all kinds of events and every id, the events delivered and queued are those that the callbacks and calls have to report, in order and with their payloads |
| `ServerRuns.BodyArrives` | Runtime/Bindings/FFI/WebServer.cpp:203-211 | The HTTP_DATA and HTTP_END events of a request carry the chunks of its body, in order |
| `ServerRuns.RunIsCarriedOut` | Runtime/Bindings/FFI/WebServer.cpp:183-417 | In every run, the messages sent to a client are those addressed to it while its socket is open, and its own in echo mode; the operations on a response are those asked for while it is pending, and the three of the shutdown |
| `ServerRuns.ModesFollow` | Runtime/Bindings/FFI/WebServer.cpp:15-47 | In every run, the server listens and echoes as it was last told to |
| `ServerRuns.DetailsAreKept` | Runtime/Bindings/FFI/WebServer.cpp:600-623 | A request that is still registered is registered with the details it came with |
| `ServerRuns.PollingDelivers` | Runtime/Bindings/FFI/WebServer.cpp:505-543 | Polling as often as there are events delivers all of them, in order, and leaves the rest |
| `WebServer.Server.constructor` | Runtime/Bindings/FFI/WebServer.hpp:150-172 | The initial state of the machine |
| `WebServer.Server.StartListening` | Runtime/Bindings/FFI/WebServer.cpp:15-28 | One step: listening and a LISTEN event on success, nothing on failure |
| `WebServer.Server.StopListening` | Runtime/Bindings/FFI/WebServer.cpp:30-47 | One step: the shutdown sequence if listening, nothing otherwise |
| `WebServer.Server.OnWebSocketOpen` | Runtime/Bindings/FFI/WebServer.cpp:161-170 | One step: OPEN and a registry entry |
| `WebServer.Server.OnWebSocketClose` | Runtime/Bindings/FFI/WebServer.cpp:172-181 | One step: CLOSE, and the entry becomes null but stays |
| `WebServer.Server.OnWebSocketMessage` | Runtime/Bindings/FFI/WebServer.cpp:183-193 | One step: MESSAGE, and in echo mode the message is sent back |
| `WebServer.Server.OnRequest` | Runtime/Bindings/FFI/WebServer.cpp:195-201 | One step: HTTP_START, then the details are stored unless the id is in use, then the handlers are set |
| `WebServer.Server.StoreRequestDetails` | Runtime/Bindings/FFI/WebServer.cpp:600-623 | An entry that exists is left alone |
| `WebServer.Server.SetCallbackHandlers` | Runtime/Bindings/FFI/WebServer.cpp:625-640 | Requires the start to have been queued; from then on the library knows the request |
| `WebServer.Server.OnData` | Runtime/Bindings/FFI/WebServer.cpp:625-629 | One step: HTTP_DATA, or HTTP_END for the last chunk |
| `WebServer.Server.OnConnectionWritable` | Runtime/Bindings/FFI/WebServer.cpp:213-217 | One step: HTTP_WRITABLE |
| `WebServer.Server.OnConnectionAborted` | Runtime/Bindings/FFI/WebServer.cpp:219-224 | One step: HTTP_ABORT, and the request is forgotten |
| `WebServer.Server.SetEchoMode` | Runtime/Bindings/FFI/WebServer.cpp:545-548 | One step |
| `WebServer.Server.SendMessageToClient` | Runtime/Bindings/FFI/WebServer.cpp:334-339 | One step; dropped if the client is unknown or faded, else sent on an open socket |
| `WebServer.Server.SendToLive` | Runtime/Bindings/FFI/WebServer.cpp:295-301 | Only clients that are not faded are sent the message, each on an open socket |
| `WebServer.Server.BroadcastMessage` | Runtime/Bindings/FFI/WebServer.cpp:292-304 | One step; the result is dropped exactly if it was for some connected client |
| `WebServer.Server.Close` | Runtime/Bindings/FFI/WebServer.cpp:244-248 | Closing an open socket runs the close handler within the call |
| `WebServer.Server.DisconnectAllClients` | Runtime/Bindings/FFI/WebServer.cpp:240-251 | Closes the connected clients with the close handler running inside the loop, then the registry is empty |
| `WebServer.Server.EraseFaded` | Runtime/Bindings/FFI/WebServer.cpp:257-265 | Erasing while iterating drops the faded clients of the whole enumeration, and the count says how many |
| `WebServer.Server.PurgeFadedClients` | Runtime/Bindings/FFI/WebServer.cpp:253-268 | One step, which leaves exactly the clients that are not faded; the returned count plus the remaining size is the old size |
| `WebServer.Server.AnswerAll` | Runtime/Bindings/FFI/WebServer.cpp:276-285 | Every pending response gets a status, a header and an end, in turn |
| `WebServer.Server.AbortAllConnections` | Runtime/Bindings/FFI/WebServer.cpp:270-290 | Answers each pending request once and returns how many there were; the registry is empty |
| `WebServer.Server.WriteResponse` | Runtime/Bindings/FFI/WebServer.cpp:355-366 | One step on a pending response, none otherwise; the status says which |
| `WebServer.Server.EndResponse` | Runtime/Bindings/FFI/WebServer.cpp:368-381 | One step that also forgets the request |
| `WebServer.Server.TryEndResponse` | Runtime/Bindings/FFI/WebServer.cpp:383-397 | One step that forgets the request exactly if the response was completed; the status encodes both results |
| `WebServer.Server.WriteResponseStatus` | Runtime/Bindings/FFI/WebServer.cpp:399-407 | One step on a pending response, none otherwise |
| `WebServer.Server.WriteResponseHeader` | Runtime/Bindings/FFI/WebServer.cpp:409-417 | One step on a pending response, none otherwise |
| `WebServer.Server.GetNextDeferredEvent` | Runtime/Bindings/FFI/WebServer.cpp:505-543 | Delivers the oldest event, its payload cut only to the maximum minus one; without buffers or events nothing changes |
| `WebServer.CodesAreInOrder` | Runtime/Bindings/FFI/WebServer.hpp:24-37 | The codes of the event kinds count from 1 in the order of their declaration |
| `WebServer.CodesTellKinds` | Runtime/Bindings/FFI/WebServer.hpp:24-37 | The code tells the kind |
| `WebServer.Truncate` | Runtime/Bindings/FFI/WebServer.cpp:530-538 | What is kept is the beginning, all of it if it fits, else as much as fits |
| `AppBundle.Decode` | Runtime/Libraries/vfs.lua:32-69 | Succeeds exactly on contents that are long enough and have the magic value 24 bytes before the end; then the last 24 bytes are the encoding of the signature returned, and executable and archive are, one after the other, the beginning of the contents in the sizes it says |
| `AppBundle.LittleEndianRoundTrip` | Runtime/Libraries/vfs.lua:17-23 | Sizes that fit into their field survive it |
| `AppBundle.LittleEndianDigits` | Runtime/Libraries/vfs.lua:17-23 | Byte i of a size is its digit i to the base 256, least significant first |
| `AppBundle.SignatureLayout` | Runtime/Libraries/vfs.lua:17-23 | "LUAZIP", the two version bytes, then the two sizes of eight bytes |
| `AppBundle.DecodeBundle` | Runtime/Libraries/vfs.lua:32-69 | Decoding a bundle gives back version, sizes, executable and archive |
| `AppBundle.BundleOfDecoded` | Runtime/Libraries/vfs.lua:32-69 | Building the bundle again from what was decoded gives the contents back, if version and sizes are those of a bundle |
| `AppBundle.Extract` | Runtime/Libraries/vfs.lua:86-99 | The contents of the first entry of that name, or an error if there is none |
| `AppBundle.FindFirst` | Runtime/Libraries/vfs.lua:86-99 | What is found is the first entry of that name; nothing is found exactly if there is none |
| `AppBundle.BuildZipApp` | Runtime/evo.lua:353-403 | Executable, archive of the files under their relative paths, signature; the counters are the number and total size of the files |
| `AppBundle.ExtractAfterBuild` | Runtime/evo.lua:353-403 | From the built bundle, every file comes out under its relative path if no two files resolve to the same path |
| `Transform.StripRender` | Runtime/Libraries/transform.lua:55-79 | Stripping any nesting and concatenation of colour transforms gives the plain text and leaves no sequence, if and only if there is no sequence in the plain text |
| `Transform.NoEscapeIsFree` | Runtime/Libraries/transform.lua:55-67 | There is none in a text without ESC |
| `Transform.RemovePass` | Runtime/Libraries/transform.lua:59-64 | The substitution for k numbers removes exactly the sequences of k numbers, if its pattern does not match in the text around them |
| `Transform.StripTokens` | Runtime/Libraries/transform.lua:55-67 | For any text around sequences of one to five numbers: the five passes leave exactly that text and no sequence, if and only if there is none in it |
| `Transform.ColorCodeIsSequence` | Runtime/Libraries/transform.lua:8-44 | Every entry of the colour table has the numbers of the standard: 30 to 37 in the foreground behind 0, or behind 1 if bright, 40 to 47 and 100 to 107 in the background, 1, 4, 5, 7 for the styles |
| `Terminal.RenderLooks` | Runtime/Libraries/transform.lua:69-79 | Shown on a terminal, rendered text has every character in the colour chosen for it, and everything is reset behind it |
| `Transform.MatchIsSequence` | Runtime/Libraries/transform.lua:59-64 | The pattern for k numbers matches exactly where there are ESC, a bracket, k numbers with semicolons between them and an m, and takes all of it |
| `Transform.StripKeepsExactly` | Runtime/Libraries/transform.lua:55-67 | A text survives stripping if and only if there is no such sequence of one to five numbers in it |
| `Transform.StripLeavesSequence` | Runtime/Libraries/transform.lua:55-67 | An input where it does match: one pass completes a sequence that stays |
| `DeferredCallbacks.EveryRunIsOrderly` | Runtime/API/C_Timer.lua:97-119 | In every run callbacks are called once each, in deferral order, in the pass after the one they were deferred in, and the check handle is active exactly when something waits |
| `DeferredCallbacks.CheckRunsWhatWaits` | Runtime/API/C_Timer.lua:97-108 | A check phase calls exactly what was waiting |
| `DeferredCallbacks.WhatIsAskedIsDeferred` | Runtime/API/C_Timer.lua:97-119 | In every run exactly the callbacks that are asked for, directly or by the callbacks called, are deferred, in that order |
| `DeferredCallbacks.Scheduler.DeferCallback` | Runtime/API/C_Timer.lua:110-119 | One step of the scheduler, between passes or within one; what holds between passes is kept |
| `DeferredCallbacks.Scheduler.OnCheck` | Runtime/API/C_Timer.lua:97-108 | One step of the scheduler, with callbacks that defer further ones; what holds between passes holds again |
| `Uncompress.UncompressAll` | Runtime/Bindings/lminiz.cpp:448-487 | No buffer above INT_MAX is offered, each is twice the one before, and the exact bytes come back if and only if they fit into the first buffer or into one of its doublings below INT_MAX |

## Left out

- All `win32` path functions: their drive-relative forms obey other laws.
- `posix.join`: it only joins texts and normalizes.
- Arguments that are not strings, in all path functions; of `resolve` only the call without arguments is modelled. The working directory is a parameter and the Windows branch that computes it is not modelled.
- PosixRelative.Relative: requires an absolute working directory, which is what the operating system returns.
- Base64Decoder.FromBase64: models characters below 128 only, since above that the result depends on whether `char` is signed.
- Base64.ToBase64: source and destination do not overlap, and the output length does not exceed `size_t`.
- JsonEncoder.Encoder.EncodeValue: does not describe stack and events after an error, because the Lua error unwinds both; numbers are exact integers or reals.
- JsonEncoder.Encoder.EncodeTable: whether a table is an array is recorded with it instead of computed; `__tostring` returns a string.
- JSON text layout (compact, pretty, prettier) and the decoder, which belong to the JSON library.
- JsonDepth.TooDeepExactly: assumes the Lua stack is large enough for the depth limit; with less, encoding may also fail with a stack overflow.
- ServerProtocol.EveryRunIsSafe: assumes what the networking library promises: ids are fresh, it calls back only for requests it has handlers for and for sockets it holds open, no chunk follows the last one of a body, and `close` calls the close handler.
- WebServer.Server.SendMessageToClient: text, binary and compressed messages are not distinguished, nor are they in broadcasts.
- Request detail getters and route setup: they only read the registries.
- AppBundle.Decode: sizes of 2^53 and more, which lose precision as Lua numbers, are not modelled; version and layout are those of a 64-bit platform.
- AppBundle.BuildZipApp: takes the sorted list of files and their contents as parameters; the zip format is a pair of functions that undo each other; console output and file writing are not modelled.
- `vfs.dofile`, the module searcher and native library loading.
- Transform.StripRender: the switch that disables colours is a parameter.
- DeferredCallbacks.EveryRunIsOrderly: callbacks that raise errors or re-enter the event loop are not modelled, nor is the coroutine form of `Defer`, timers and tickers.
- Uncompress.UncompressAll: the decompressor is an oracle that rejects a buffer exactly when the data of a valid stream does not fit.
- Bindings to OpenSSL, iconv, curl, GLFW, wgpu, RmlUi, LabSound, webview and UUID libraries: thin wrappers.
- Build scripts, console formatting, etrace, oop, the command line interface and `table.shuffle`: they would only add easy members.
