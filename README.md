# User service handler and protocol selection, modelled in Dafny

This project models the two pieces of logic that the example Thrift user service implements itself:

- **The record store handler `UserServiceImpl`.** It keeps a map from id to `User` and an id counter that starts at 1. It supports create, get, update, delete and list. Missing records raise the declared `UserNotFoundException`. `validateUserData` rejects bad input with framework-level `TApplicationException`s, each carrying a type code.
- **Protocol-name resolution** in the Java server, the Java client and the Ruby client. A non-empty `THRIFT_PROTOCOL` environment value wins, then the first command-line argument, then `"binary"`. The name is trimmed and lower-cased, then mapped onto a codec. The Java processes know `binary`, `compact`, `json` and `simplejson`. The Ruby client knows only `compact` and `json`. Every other name falls back to binary.

Layout, one module per file:

- `wrappers.dfy` (`Wrappers`): `Option`. Java's `null` and Ruby's `nil` become `None`.
- `text.dfy` (`Text`): one strip function with two space rules. Java's `String.trim` removes every character up to U+0020. Ruby's `String#strip` removes NUL, `\t`, `\n`, `\v`, `\f`, `\r` and space. The module also has ASCII lower-casing and the normalisation built from the two.
- `decimal.dfy` (`Decimal`): how Java renders a `long` in string concatenation, and the parser that inverts it.
- `protocol.dfy` (`Protocol`): the `Codec` enumeration and the `Selection` result. A selection holds the reported name and the codec in use.
- `java_server.dfy`, `java_client.dfy`, `ruby_client.dfy`: the selection code of each process, with its lemmas.
- `user_model.dfy` (`UserModel`): the store as a value. There is one function per operation, the store invariant, and call sequences (`Run`) with lemmas over them.
- `user_service.dfy` (`UserService`): the class `UserServiceImpl`. Its fields `users` and `nextId` are updated in place by its methods. Each method is proved against the matching `UserModel` function. The module also holds `validateUserData`.

The environment variable and the argument vector are parameters.

## Model

| member | source | states |
|---|---|---|
| Text.Strip | java-server/src/main/java/com/example/Server.java:32 | The result is no longer than the input. It starts and ends with a non-space, unless it is empty. It is empty only if the whole input is spaces. |
| Text.StripDecompose | java-server/src/main/java/com/example/Server.java:32 | Strip removes only spaces: the input is the result padded on both sides with spaces of the rule. |
| Text.StripUnique | java-server/src/main/java/com/example/Server.java:32 | Surround a string that has no space at either end with any spaces, and stripping gives back exactly that string. With StripDecompose this pins Strip down completely. |
| Text.StripEmptyIff | java-server/src/main/java/com/example/UserServiceImpl.java:65 | `trim().isEmpty()` holds exactly when every character is a space of the rule, up to U+0020 for Java. |
| Text.StripIgnoresPadding | ruby-client/client.rb:19 | Extra surrounding spaces do not change the stripped string. |
| Text.StripRulesAgree | ruby-client/client.rb:19 | On a string where the Java and Ruby rules agree on every character, `trim` and `strip` give the same result. |
| Text.AsciiLower | java-server/src/main/java/com/example/Server.java:32 | Lower-casing keeps the length and lower-cases each character independently: A-Z become a-z, everything else stays. |
| Text.StripLowerCommute | java-server/src/main/java/com/example/Server.java:32 | Stripping then lower-casing equals lower-casing then stripping. |
| Text.NormaliseIdempotent | java-client/src/main/java/com/example/JavaClient.java:29 | A normalised name is already in normal form. |
| Text.NormaliseIgnoresCase | java-client/src/main/java/com/example/JavaClient.java:29 | Two names equal up to ASCII case normalise to the same name. |
| Text.NormaliseIgnoresPadding | ruby-client/client.rb:19 | Surrounding spaces do not change the normalised name. |
| Text.NormaliseOfLowerWord | java-server/src/main/java/com/example/Server.java:32 | A word made of lower-case letters, such as a case label, is its own normal form. |
| Text.NormaliseOfNormal | ruby-client/client.rb:19 | A stripped string without upper-case ASCII letters is its own normal form. |
| Decimal.NatToDecimal | java-server/src/main/java/com/example/UserServiceImpl.java:29 | The rendering is a non-empty string of digits with no leading zero. |
| Decimal.ParseIntToDecimal | java-server/src/main/java/com/example/UserServiceImpl.java:29 | Parsing the rendering of any integer, negative ones included, gives that integer back. |
| Decimal.IntToDecimalInjective | java-server/src/main/java/com/example/UserServiceImpl.java:29 | Different ids render differently. |
| UserModel.NotFoundMessageInjective | java-server/src/main/java/com/example/UserServiceImpl.java:29 | "User with ID <id> not found" determines the id: two ids with the same message are equal. |
| UserModel.EmptyStore | java-server/src/main/java/com/example/UserServiceImpl.java:13-14 | A fresh store satisfies the invariant. Its first create issues id 1. Every listing of it is empty. |
| UserModel.CreateUserSpec | java-server/src/main/java/com/example/UserServiceImpl.java:17-22 | createUser stores and returns `User(nextId, name, age)` without validating name or age. The id is one no stored record has. Exactly one key is added and the others are untouched. The counter moves up by one, the invariant holds, and getUser of the new id returns the record. |
| UserModel.GetUserSpec | java-server/src/main/java/com/example/UserServiceImpl.java:26-32 | getUser succeeds exactly on stored ids and returns the record kept under that id. Otherwise it yields the declared NotFound with "User with ID <id> not found". |
| UserModel.UpdateUserSpec | java-server/src/main/java/com/example/UserServiceImpl.java:36-42 | On a stored id, updateUser replaces that entry, returns its argument and keeps the key set. On an absent id it yields NotFound and leaves the store equal to before. getUser of every other id is unaffected. The counter and the invariant are kept. |
| UserModel.DeleteUserSpec | java-server/src/main/java/com/example/UserServiceImpl.java:46-51 | deleteUser succeeds exactly on stored ids. It removes that key alone, so the size drops by one. Afterwards getUser of that id yields NotFound and every other id answers as before. On an absent id it yields NotFound and changes nothing. |
| UserModel.ListingSize | java-server/src/main/java/com/example/UserServiceImpl.java:55-58 | A listing that holds every stored record exactly once has as many entries as the map has keys. |
| UserModel.ListingsArePermutations | java-server/src/main/java/com/example/UserServiceImpl.java:55-58 | Any two admissible results of getAllUsers are equal as multisets, so only the order is unspecified. |
| UserModel.RunKeepsInvariant | java-server/src/main/java/com/example/UserServiceImpl.java:18-50 | Every sequence of creates, updates and deletes keeps the invariant: each record sits under its own id and every key is below the next id. |
| UserModel.IdsAreConsecutive | java-server/src/main/java/com/example/UserServiceImpl.java:14-18 | In any call sequence, the creates return consecutive ids starting at the counter, whatever deletes come between. The counter ends up advanced by the number of creates, so no id is reused. |
| UserModel.FreshStoreIssuesFromOne | java-server/src/main/java/com/example/UserServiceImpl.java:14-18 | Starting from a fresh store, the n-th create returns id n. |
| UserModel.RunSize | java-server/src/main/java/com/example/UserServiceImpl.java:17-51 | After a call sequence, the number of records equals the starting size plus the creates minus the deletes that found their record. |
| UserService.UserServiceImpl.constructor | java-server/src/main/java/com/example/UserServiceImpl.java:13-14 | The store starts with an empty map, the counter at 1 and the invariant holding. |
| UserService.UserServiceImpl.CreateUser | java-server/src/main/java/com/example/UserServiceImpl.java:17-23 | The new fields equal `UserModel.CreateUser` of the old ones: `users` gains the entry `old(nextId) -> User(old(nextId), name, age)`, which is returned, and `nextId` moves up by one. The invariant is kept. |
| UserService.UserServiceImpl.GetUser | java-server/src/main/java/com/example/UserServiceImpl.java:26-33 | Reads only. Returns the record stored under the id, which has that id, or NotFound with the id's message. |
| UserService.UserServiceImpl.UpdateUser | java-server/src/main/java/com/example/UserServiceImpl.java:36-43 | On a stored id, `users` gets that entry replaced and the argument is returned. Otherwise NotFound, with `users` unchanged. `nextId` is unchanged either way and the invariant is kept. |
| UserService.UserServiceImpl.DeleteUser | java-server/src/main/java/com/example/UserServiceImpl.java:46-52 | On a stored id, `users` loses exactly that key. Otherwise NotFound, with `users` unchanged. `nextId` is unchanged and the invariant is kept. |
| UserService.UserServiceImpl.GetAllUsers | java-server/src/main/java/com/example/UserServiceImpl.java:55-59 | Walks the keys in arbitrary order. Returns every stored record exactly once, and nothing else, with as many entries as there are keys. |
| UserService.ValidateUserDataSpec | java-server/src/main/java/com/example/UserServiceImpl.java:62-80 | A null name, or one of characters up to U+0020 alone, gives INVALID_MESSAGE_TYPE "Name cannot be null or empty", whatever the age. Otherwise an age outside 0..150 gives WRONG_METHOD_NAME "Age must be between 0 and 150". Otherwise the call succeeds. It never yields NotFound. |
| UserService.ValidMessageNamesUser | java-server/src/main/java/com/example/UserServiceImpl.java:79 | A successful validation had a name, and its message starts with "User data is valid: " followed by that name. |
| UserService.AcceptedWhenNamed | java-server/src/main/java/com/example/UserServiceImpl.java:72-79 | With a name whose first character is above U+0020, every age from 0 to 150 is accepted, the bounds included. |
| UserService.RejectedAgeWhenNamed | java-server/src/main/java/com/example/UserServiceImpl.java:72-77 | With such a name, ages below 0 and above 150 are rejected with WRONG_METHOD_NAME. |
| JavaServer.FactoryForExactly | java-server/src/main/java/com/example/Server.java:35-48 | The switch picks a codec exactly when the name is that codec's name. Binary is also picked by every name other than compact, json and simplejson, `""` and `"unknown"` included, without error. |
| JavaServer.CodecNameIsNormal | java-server/src/main/java/com/example/Server.java:32-47 | Each case label is already trimmed and lower-case. |
| JavaServer.FactoryForCodecName | java-server/src/main/java/com/example/Server.java:35-48 | The switch maps each codec's name back to that codec. |
| JavaServer.SelectsNamedCodec | java-server/src/main/java/com/example/Server.java:29-48 | An environment value spelling a codec's name, in any ASCII case and with any surrounding whitespace, selects that codec and is reported under its lower-case name. Examples: "COMPACT", " Json ", "BINARY". |
| JavaServer.SelectionPriority | java-server/src/main/java/com/example/Server.java:29-31 | A non-empty environment value decides alone. An unset or empty one behaves as absent. After that only the first argument matters; `ArgumentActsAsEnvironment` states what it selects. With neither, the result is ("binary", Binary). |
| JavaServer.ArgumentActsAsEnvironment | java-server/src/main/java/com/example/Server.java:29-32 | With the environment unset or empty, a non-empty first argument selects exactly what the same value in the environment would, whatever follows it. An empty first argument selects ("", Binary). |
| JavaServer.ArgumentNamesCodec | java-server/src/main/java/com/example/Server.java:29-47 | With the environment unset or empty, a first argument spelling a codec's name in any ASCII case, with any surrounding characters up to U+0020, selects that codec under its lower-case name. |
| JavaServer.SelectionIgnoresCaseAndPadding | java-server/src/main/java/com/example/Server.java:32 | Padding or re-casing the environment value does not change the selection. |
| JavaServer.BlankEnvironmentOverrides | java-server/src/main/java/com/example/Server.java:31-32 | A whitespace-only environment value counts as set. It overrides every argument and selects Binary under the name "". |
| JavaServer.ReportedNameIsInput | java-server/src/main/java/com/example/Server.java:32-51 | The recorded name is the normalised input, not the codec's name. The two coincide exactly when the input is one of the four known names. |
| JavaServer.UnknownWordFallsBack | java-server/src/main/java/com/example/Server.java:31-47 | A non-empty lower-case word other than "compact", "json" and "simplejson", given in the environment or as the first argument, is reported as itself while Binary is used. |
| JavaServer.UnknownNameFallsBack | java-server/src/main/java/com/example/Server.java:44-47 | "unknown", in the environment or as the only argument, is reported as "unknown" while Binary is used. |
| JavaClient.AgreesWithServer | java-client/src/main/java/com/example/JavaClient.java:26-46 | For every environment value and argument list, the client records the same name and uses the same codec as the server. Every server lemma therefore holds for the client too. |
| JavaClient.SameSwitchAsServer | java-client/src/main/java/com/example/JavaClient.java:33-46 | The client's `switch` maps every name to the codec the server's `switch` maps it to. |
| JavaClient.TestHelperAgreement | java-client/src/test/java/com/example/JavaClientTest.java:248-257 | The test helper and the client pick the same raw name exactly when the environment value is not `""`, or when it is `""` and the first argument is `""` too. |
| RubyClient.ProtocolForExactly | ruby-client/client.rb:22-29 | The Ruby case never selects SimpleJson. It selects Compact and Json exactly by their names, and Binary for everything else, `'simplejson'` included. |
| RubyClient.AgreesWithServerOnName | ruby-client/client.rb:22-29 | On the same normalised name, the Ruby client and the Java server choose the same codec exactly when the name is not "simplejson". |
| RubyClient.SamePriorityAsServer | ruby-client/client.rb:18 | The Ruby priority (non-empty ENV value, else ARGV[0], else 'binary') gives the same raw name as the Java one. |
| RubyClient.ArgumentActsAsEnvironment | ruby-client/client.rb:18-29 | With ENV unset or empty, a non-empty ARGV[0] selects exactly what the same value in ENV would, whatever follows it. An empty ARGV[0], being a truthy String, selects ("", Binary). |
| RubyClient.AgreesWithServer | ruby-client/client.rb:18-29 | A raw name may contain none of the controls that `trim` removes and `strip` keeps. Then Ruby and Java record the same name. They use the same codec exactly when that name is not "simplejson". |
| RubyClient.ControlCharacterDisagreement | ruby-client/client.rb:19-29 | For every control that `trim` removes and `strip` keeps (U+0001, say), that control followed by "json" selects Json in Java and Binary in Ruby, where it is reported unchanged. |
| RubyClient.BlankEnvironmentOverrides | ruby-client/client.rb:18-19 | A blank ENV value still overrides ARGV[0] and, stripped to nothing, selects Binary under the name "". |
| RubyClient.SelectionIgnoresCaseAndPadding | ruby-client/client.rb:19 | Padding or re-casing the ENV value does not change the selection. |

## Left out

- Thrift's wire encodings, message framing, sequence ids, `UserService.Processor` and `UserService.Client`: library and generated code, not part of this model. `Codec` is only the name of the factory chosen.
- Sockets, transports, `TThreadPoolServer`, the shutdown hook and all console output: I/O.
- Concurrency: the store is modelled under single-threaded, sequential calls. The source pairs an unsynchronised `HashMap` with an `AtomicLong`.
- The write-back of the chosen name through `System.setProperty` and `ENV[...] =`: side effects with no influence on the choice.
- The demo sequences `performUserOperations` / `perform_user_operations`, and the Python client, which always uses the binary protocol.
- `logUserActivity`: `UserServiceImpl.java` has no implementation of it, and its unit test checks only wall-clock time.
- UserService.UserServiceImpl.CreateUser: does not model `AtomicLong` wrap-around. It requires `nextId <= MaxLong`, so from a fresh store at most 2^63 - 1 creates are covered (ids 1 to Long.MAX_VALUE); the next `getAndIncrement` would return Long.MIN_VALUE. The call sequences in `UserModel` carry the same bound.
- Text.AsciiLower: lower-cases ASCII letters only. Java's `toLowerCase` is Unicode- and locale-dependent, and Ruby's `downcase` is Unicode-aware.
- Text.Strip: Ruby's rule assumes a Ruby whose `strip` removes NUL at both ends as well as `\t\n\v\f\r` and space.
- The `TApplicationException` type codes INVALID_MESSAGE_TYPE = 2 and WRONG_METHOD_NAME = 3 are the Thrift runtime's constants. That runtime is not part of this model.
- `ServerTest`'s `getProtocolFactory` helper lower-cases without trimming. It is a test re-implementation and is not modelled; the client test helper is, for its disagreement on an empty environment value.
- `createUser` with a null name is not modelled: names are always strings. Only `validateUserData` distinguishes a null name.
- `updateUser(null)` is not modelled: it throws a NullPointerException in `UserServiceImpl.java` at line 37, and a `User` value here is never null.
- Thrift's `User` is a mutable object, and in process `getUser` returns the stored object while `updateUser` stores the caller's (`UserServiceImpl.java` lines 27 and 40). `User` is a value here, so aliasing between caller and store is not captured.
- Strings are sequences of characters: lone UTF-16 surrogates in Java and invalid byte sequences in Ruby are not represented. On such input Ruby's `downcase` may raise, which `client.rb` rescues at line 43.
