# Secret-agent messaging core, modelled in Dafny

This project models the secure-message core of a small Java system in which
agents exchange messages. It covers five parts:

- **Clearances** (`clearance.dfy`): four clearance levels, each with a fixed
  rank from 1 to 4.
- **Agents** (`agent.dfy`): agent identity.
  - A process-wide ID counter is seeded at 549321. Every construction takes the
    counter's value as its ID and advances it by one, with Java `int`
    wrap-around.
  - The UID is `codeName + "@" + id`. It is built once, at construction, and a
    later code-name change does not touch it.
- **Messages** (`message.dfy`): a message whose content an additive Caesar
  cipher overwrites in place.
  - Each message keeps three derived code sequences: encoded, encrypted and
    decrypted.
  - Each sequence is printed as `[v]` items by its accessor.
- **Inboxes** (`inbox.dfy`): an agent's inbox, a newest-first chain of
  messages.
- **Secret agents** (`secret_agent.dfy`): the protocol between agents.
  - `send` checks three gates in order: sender name, receiver name, then a
    clearance difference of at most one rank.
  - `decryptAll` walks the inbox newest first and uses one key per message.

Java's primitive types are made explicit in `java_types.dfy`:

- `int` is `Int32`, and every `+`/`-` the code performs is wrapped into 32 bits.
- `char` is a 16-bit code unit; `(char) i` keeps the low 16 bits.
- A `String` is a sequence of code units.
- A reference that may be `null` is an `Option`.
- A call that throws returns a failure value instead.

The static ID counter is an explicit value that each constructor takes and
returns. Every message printed to the console is instead a returned outcome
value (`SendResult`, `DecryptOutcome`) or a list of lines (`PrintResult`).

Two files replay concrete runs:

- `agent_scenarios.dfy` replays the agent unit test's constructions.
- `message_scenarios.dfy` sends "HI" up one rank and decrypts it.

## Model

| member | source | states |
|---|---|---|
| Clearances.Rank | src/Clearance.java:8-11 | every level's rank lies in 1..4 and is its position in declaration order |
| Clearances.FromRank | src/Clearance.java:8-11 | a level exists for exactly the ranks 1..4, and it has that rank (inverse of Rank) |
| Clearances.ExactlyFourLevels | src/Clearance.java:7-11 | there are exactly four levels, each listed once, and every level is among them |
| Clearances.RankFollowsDeclarationOrder | src/Clearance.java:8-11 | the i-th declared level has rank i+1, so rank is strictly increasing in declaration order |
| Clearances.RankInjective | src/Clearance.java:8-11 | distinct levels have distinct ranks |
| JavaTypes.Wrap32 | src/Agent.java:28 | the wrapped value is congruent to the exact one modulo 2^32 and equals it when it fits in an `int` |
| JavaTypes.CastCharUndo | Message.java:120 | casting `c + key` to `char`, subtracting `key` and casting again gives `c` back |
| JavaTypes.CastCharWrap32 | Message.java:75 | wrapping an `int` sum to 32 bits before the `(char)` cast does not change the character |
| JavaTypes.Wrap32Injective | src/Agent.java:28 | two values less than 2^32 apart wrap to different `int`s |
| JavaTypes.DigitsRoundTrip | Message.java:191 | the value of the decimal digits of n is n |
| JavaTypes.DecimalRoundTrip | Message.java:191 | every `int`'s decimal rendering, with sign, parses back to it |
| JavaTypes.DecimalInjective | src/Agent.java:29 | distinct numbers render as distinct strings |
| JavaTypes.ParsedIsDecimal | Message.java:191 | the only text that reads back as n is n's decimal rendering: no leading zeros, no `-0`, no `+` |
| Agents.Advance | src/Agent.java:28 | the counter after a construction is one more, and the largest `int` wraps round to the smallest |
| Agents.MakeUid | src/Agent.java:29 | the UID splits at its last `@` into the code name at construction (`null` if unset) and the ID, written in decimal |
| Agents.UidFromSplit | src/Agent.java:29 | a UID that splits into a code name and a number is exactly that code name, `@` and the number's decimal rendering, so MakeUid's text is the one Java builds |
| Agents.NewAgent | src/Agent.java:27-30 | takes the counter's value as ID and advances it by one; names and clearance stay null; the UID is made from the null code name |
| Agents.NewNamedAgent | src/Agent.java:40-45 | takes the counter's value as ID and advances it by one; names set, clearance null; the UID reads back as the given code name and the ID |
| Agents.NewClearedAgent | src/Agent.java:57-63 | as NewNamedAgent, and the clearance is the given one |
| Agents.SetCodeName | src/Agent.java:98-100 | the code name changes; UID, ID, name and clearance do not |
| Agents.SetAgentName | src/Agent.java:102-104 | the name changes; UID, ID, code name and clearance do not |
| Agents.ToString | src/Agent.java:111-114 | the text is the label `Agent name: `, the name (or `null`), the label `, UID: ` and the UID, in that order |
| Agents.AgentInfo | src/Agent.java:91-93 | the text is the UID, ` (`, the clearance's enum name (or `null`) and ` clearance)`, in that order |
| Agents.IssuedIdsConsecutive | src/Agent.java:43 | the i-th of k successive constructions gets the starting counter plus i, as an `int` |
| Agents.IssuedIdsDistinct | src/AgentUnitTest.java:57-65 | up to 2^32 successive constructions never hand out the same ID twice |
| Agents.UidCapturedAtConstruction | src/Agent.java:98-100 | after `setCodeName`, the UID still reads back as the original code name and ID |
| AgentScenarios.FirstNamedAgent | src/AgentUnitTest.java:24-35 | the first agent from a fresh counter gets ID 549321, UID `Alpha@549321` and the given names |
| AgentScenarios.DefaultAgentRenamed | src/AgentUnitTest.java:42-50 | a default-built agent renamed afterwards has the new names but keeps the UID `null@549322` |
| AgentScenarios.FollowingIds | src/AgentUnitTest.java:58-62 | the next three constructions get 549323, 549324 and UID `Gamma@549325` |
| AgentScenarios.SixthAgentToString | src/AgentUnitTest.java:72-75 | the agent named Afifa with UID `Sigma@549326` prints as `Agent name: Afifa, UID: Sigma@549326` |
| AgentScenarios.AgentUnitTestRun | src/AgentUnitTest.java:23-76 | the unit test's six constructions, in order from a fresh counter, give the IDs and UIDs above |
| Messages.NewMessage | Message.java:26-30 | sender, receiver and content as given; no derived sequence exists yet |
| Messages.Codes | Message.java:55-57 | one code per character, equal to that character's code |
| Messages.Shift | Message.java:74-76 | one value per character: its code plus the key, wrapped to an `int` |
| Messages.FormatContent | Message.java:117-124 | one character per value, each the value cast to `char` |
| Messages.FormatContentOfCodes | Message.java:117-124 | formatting the codes of a string gives the string back |
| Messages.Encode | Message.java:51-61 | `encoded` becomes the content's codes (empty for empty content), which format back to the content; nothing else changes |
| Messages.FormatShift | Message.java:84 | the new content is each old character plus the key, cast to `char` |
| Messages.Encrypt | Message.java:70-89 | `encrypted[i]` is code plus key, wrapped; the content becomes those values cast to `char`; `encoded` is set to the plaintext's codes only when unset and the content non-empty; sender, receiver and `decrypted` are unchanged |
| Messages.Decrypt | Message.java:97-108 | throws exactly when `encrypted` is null or the content is shorter than it; on success `encrypted`, `encoded`, sender and receiver are unchanged |
| Messages.DecryptedContent | Message.java:97-108 | on success, `decrypted` has `encrypted`'s length and holds each content code minus the key; the new content is those values cast to `char` |
| Messages.DecryptLeftover | Message.java:99-104 | a throwing `decrypt` changes nothing but `decrypted`, and only once `encrypted` exists |
| Messages.LeftoverDecrypted | Message.java:99-104 | when the content is too short, `decrypted` has `encrypted`'s length, holds code minus key up to the content's end, and 0 after it |
| Messages.ShiftBack | Message.java:103 | shifting every character by `key` and then by `-key`, with the casts, restores the characters |
| Messages.EncryptDecryptRoundTrip | Message.java:70-108 | `decrypt(k)` right after `encrypt(k)` succeeds and restores the original content exactly |
| Messages.Output | Message.java:187-195 | the listing is empty exactly for an empty sequence and otherwise opens with `[` |
| Messages.OutputRoundTrip | Message.java:187-195 | the `[v]` listing of any sequence parses back to that sequence |
| Messages.ParsedIsOutput | Message.java:187-195 | the only text that parses back to a sequence is that sequence's `[v]` listing |
| Messages.Listing | Message.java:155-177 | an unset sequence gives the fixed placeholder; a set one gives the heading followed by text that parses back to it, which ParsedIsOutput makes exactly its `[v]` listing |
| Messages.GetEncoded | Message.java:155-161 | `<not encoded>` when unset; otherwise `encoded: ` followed by a listing of exactly `encoded` |
| Messages.GetEncrypted | Message.java:163-169 | `<not encrypted>` when unset; otherwise `encrypted: ` followed by a listing of exactly `encrypted` |
| Messages.GetDecrypted | Message.java:171-177 | `<not decrypted>` when unset; otherwise `decrypted: ` followed by a listing of exactly `decrypted` |
| Messages.ToString | Message.java:247-250 | the text is `Message from `, the sender's code name (or `null`), ` to `, the receiver's code name (or `null`), `:`, a newline and the content, each at its position |
| Messages.DebugString | Message.java:238-240 | the text is `toString`, the encoded listing, the encrypted listing and the decrypted listing, each at its position and separated by newlines |
| MessageScenarios.HiEncryptedWithThree | Message.java:70-89 | "HI" under key 3 records codes [72, 73], stores [75, 76], and the content becomes the characters 75, 76 |
| MessageScenarios.HiEncodedListing | Message.java:155-195 | encoded [72, 73] is shown as `encoded: [72][73]` |
| MessageScenarios.HiEncryptedListing | Message.java:163-195 | encrypted [75, 76] is shown as `encrypted: [75][76]` |
| MessageScenarios.HiDecryptedWithThree | SecretAgent.java:71-90 | a level-1B agent walking a chain holding only that message, with the key 3, completes and reads "HI" |
| MessageScenarios.HiSentOneRankUp | SecretAgent.java:30-51 | any named level-1A agent's "HI" to any named level-1B agent with an empty inbox is delivered encrypted, listed as above, and decrypted by the receiver |
| MessageScenarios.SendAndDecryptHi | SecretAgent.java:17-61 | the same for two agents built from a fresh counter |
| Inboxes.EmptyInbox | SecretAgent.java:9 | a new inbox holds no message |
| Inboxes.Receive | Inbox.java:16-21 | the message becomes the head and the previous chain, unchanged, its tail; a chain without repeats stays so when the message is new to it |
| Inboxes.Delete | Inbox.java:48-61 | requires a non-empty inbox; leaves the chain exactly as it was, so a message in it stays in it |
| Inboxes.Read | Inbox.java:29-41 | empty: returns null and the inbox stays empty; otherwise returns the head and leaves exactly the rest, in order |
| Inboxes.GetRecent | Inbox.java:98-100 | null exactly for an empty inbox, else the head, the same message `read` would return |
| Inboxes.PrintAllRec | Inbox.java:81-93 | one line per message with its content, newest first, then the end marker |
| Inboxes.PrintAll | Inbox.java:67-74 | non-empty: each content newest to oldest, then the end marker; empty: the marker, then a fault |
| Inboxes.ReceiveTwiceThenRead | Inbox.java:16-41 | after receiving m1 then m2 into an empty inbox, reads return m2, m1, then null, leaving it empty |
| Inboxes.ReadAll | Inbox.java:29-41 | reading until null yields every message in chain order |
| SecretAgents.NewSecretAgent | SecretAgent.java:17-19 | the agent has the given names and clearance, any of them possibly null, takes the next ID, and starts with an empty inbox |
| SecretAgents.HierarchyVal | SecretAgent.java:98-100 | null exactly when either clearance is null; 0 exactly for equal levels; positive exactly when `level` ranks above the agent; within -3..3 |
| SecretAgents.HierarchyAntisymmetric | SecretAgent.java:98-100 | measuring from either agent gives the same distance with opposite signs |
| SecretAgents.Send | SecretAgent.java:30-51 | each refusal and throw happens exactly when its gate is the first to fail, in the code's order; otherwise the agent is unchanged and the encrypted message heads the receiver's inbox, older messages following |
| SecretAgents.SenderGateComesFirst | SecretAgent.java:33-34 | a non-matching sender name refuses the send whatever the receiver, clearances and key |
| SecretAgents.ClearanceGateBoundary | SecretAgent.java:42-47 | for an addressed message, a receiver one rank up gets it and one two ranks up is refused |
| SecretAgents.DecryptOne | SecretAgent.java:84-89 | a null clearance on either side throws; a sender more than one rank above the agent leaves the message as it is with no fault; otherwise the message is decrypted with the key, and a throwing `decrypt` leaves it as DecryptLeftover says |
| SecretAgents.DecryptAllRec | SecretAgent.java:71-90 | the walk keeps the chain's length |
| SecretAgents.WalkFault | SecretAgent.java:71-90 | for any per-message handler, a fault names the first message whose handling throws, after every earlier one was handled cleanly |
| SecretAgents.WalkClean | SecretAgent.java:71-90 | for any handler, without a fault every message that has a key is handled cleanly |
| SecretAgents.WalkNotEnoughKeys | SecretAgent.java:73-81 | for any handler, "not enough keys" is reported exactly when no fault occurs and fewer keys than messages remain |
| SecretAgents.WalkBounds | SecretAgent.java:71-90 | the walk visits no more messages than have a key |
| SecretAgents.HandledPrefixAt | SecretAgent.java:84-89 | position j of the handled prefix is message j handled with key `index + j` |
| SecretAgents.WalkPrefix | SecretAgent.java:71-90 | the visited messages are replaced by their handled prefix |
| SecretAgents.WalkUntouched | SecretAgent.java:71-90 | messages after the last visited one are left as they were |
| SecretAgents.DecryptAllRecFault | SecretAgent.java:71-90 | a fault names the first message the agent's decryption throws on; every earlier one was handled cleanly |
| SecretAgents.DecryptAllRecClean | SecretAgent.java:71-90 | without a fault, every message that has a key is handled cleanly |
| SecretAgents.DecryptAllRecNotEnoughKeys | SecretAgent.java:77-81 | "not enough keys" exactly when no fault occurs and fewer keys than messages remain |
| SecretAgents.DecryptAllRecVisited | SecretAgent.java:83-89 | the i-th visited message is replaced by its state after being handled with `keys[index + i]`, including the one that threw |
| SecretAgents.DecryptAllRecUntouched | SecretAgent.java:71-90 | messages beyond the last visited one are unchanged |
| SecretAgents.DecryptAll | SecretAgent.java:59-90 | the loop leaves the agent unchanged and yields exactly the walk from the newest message with key 0 onward; length kept; "not enough keys" exactly when no fault occurs and `|keys| < |inbox|`; messages at positions from `|keys|` on are untouched |
| SecretAgents.SkippedMessagesUseKeys | SecretAgent.java:84-89 | at every visited position j the key used is `keys[index + j]`: a message from a sender more than one rank up is left as it is, and one within range is decrypted with the key of its own position |
| SecretAgents.SkippedMessageUsesKey | SecretAgent.java:84-89 | a message from a sender more than one rank up is left as it is yet uses up `keys[0]`; the next message is decrypted with `keys[1]` |

## Left out

- Console output is not modelled. Each printed status line becomes a returned
  value, and `printAll`'s lines are returned as a list.
- The `secrecy` tag, the four-argument `Message` constructor and `getSecrecy`
  are left out. The tag is stored but no gate reads it.
- `Message`'s setters are left out: `setFrom`, `setTo`, `setContent`,
  `setEncoded`, `setEncrypted`, `setDecrypted` and `setSecrecy`. So is
  `SecretAgent.setInbox`. Each is a plain field write.
- `setNext` and the `next` field are not modelled on their own. A message's
  successor is the next element of its inbox sequence.
- A `null` content and a `null` sender or receiver agent on a message are not
  modelled. Content and agents are always present.
- Null names, null code names and null clearances are modelled: every
  constructor and setter takes them as `Option` values. The throws they cause
  in `send`, `hierarchyVal` and `decryptAllRec` are returned as values.
- Object identity is replaced by value equality. Sending one `Message` object
  twice makes Inbox.java:18 link the chain into a cycle. Two equal messages in
  a chain are instead two elements here. `Receive` keeps the chain free of
  repeats only for a message that is new to it.
- A received message's old `next` link is not carried along. When the inbox is
  empty, `receive` leaves that link stale.
- A `Message` holds copies of its sender and receiver agents, not references.
- Aliasing between the caller's `msg` and the inbox entry is not modelled.
  `send` encrypts the caller's object in place and then links it into the
  inbox. In the model, the receiver's inbox holds the encrypted message and
  the caller's value is unchanged.
- Inboxes.Delete: `delete` is modelled as the code behaves: the loop at
  Inbox.java:55-60 rewrites every `next` link to its own value, so nothing is
  unlinked. The comment at Inbox.java:44-46 says the message is removed. The
  code was followed.
- SecretAgents.DecryptAllRec: a negative starting `index` is not modelled; the
  index is a `nat`. `decryptAll` always starts at 0.
- SecretAgents.HierarchyVal: only the value's range and sign are stated in its
  contract. The exact difference of ranks is what the clearance gate uses,
  through `WithinClearance`.
- The expectation printed at src/AgentUnitTest.java:74 is not modelled. It
  expects `Alpha@549326` for an agent whose code name is Sigma. The model
  derives `Sigma@549326` for that construction, as Agent.java builds it.
