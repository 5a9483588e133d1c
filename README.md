# BluetoothDemo peripheral manager, modelled in Dafny

This project models the peripheral (GATT server) side of the BluetoothDemo app. The centre is
its `PeripheralManager`, which holds four pieces of state:

- the services it has added;
- the centrals subscribed to each characteristic;
- the history of values pushed to each characteristic, newest first;
- a single error slot.

It also models the two display helpers on characteristics and the parser that turns a
comma-separated string into a list of Bluetooth UUIDs.

## Modules

- `Gatt` holds the values the manager works with: bytes, UUIDs, characteristics, services,
  centrals, ATT requests, power states and the error taxonomy. The error reason strings are
  copied verbatim. Platform objects that the app compares by identity carry a handle:
  - a service has `handle`;
  - a characteristic has `CharRef`;
  - a central has `CentralId`.
- `Validation` holds the three rules a mutable characteristic must pass, checked in order, and
  the reasons a list of characteristics reports.
- `Registry` holds the queries on the list of added services:
  - duplicate and inclusion checks by UUID;
  - removal by identity or by UUID;
  - the UUIDs to advertise;
  - the error slot after a sequence of reports.
- `Subscriptions` holds the subscription dictionary and the three updates applied to it:
  subscribe, unsubscribe and restore.
- `ValueEngine` holds four things:
  - the effective MTU (the largest payload one update may carry);
  - the errors an update throws;
  - the value history;
  - what a read is answered with and the buffer a write batch assembles. A looping method
    assembles that buffer, proved against a fold.
- `PeripheralManagement` holds the `PeripheralManager` class. Its fields are the app's
  state plus two more:
  - `state` is the adapter's power state;
  - `calls` is the log of requests issued to the platform.

  The platform's answers are method parameters:
  - whether the transmit queue accepted an update;
  - the error of an add or advertising callback.

  Application operations are gated on the adapter being powered on. Delegate callbacks update
  the same fields.
- `CharacteristicText` holds the property-set label formatter and the user-description
  lookup. Each is a looping method proved equal to a recursive specification.
- `UuidStrings` holds the comma-separated UUID list parser. It splits on commas, drops empty
  pieces, trims white space and newlines, parses each piece in the 8-4-4-4-12 hexadecimal form
  of section 3 of RFC 4122, and keeps the pieces that parse. `Text` holds the join helper that
  both text modules use.

## Behaviour modelled as the code has it

Some of the code's behaviour looks unintended; the model keeps it as written:

- `addService` reports every failing characteristic and every unpublished included service.
  None of these failures stops the add. The `return` inside `forEach` only ends that one
  closure, so the service is still sent to the platform and appended. The error slot ends up
  holding the last reason reported.
- `updateValue` ignores its `characteristic` argument. It always targets the first
  characteristic of the first added service. The force-unwraps there become a precondition.
- A full transmit queue sets the error but throws nothing. So a write batch whose update was
  refused is still answered with success.
- The value history is never trimmed.
- `removeService` matches the service to remove by identity. The duplicate check, the
  inclusion checks and the failed-add cleanup match by UUID. A service that includes its own
  UUID blocks its own removal.
- Removal is optimistic: the service leaves the list before the platform has answered.
- During state restoration, a restored mutable characteristic whose platform-reported subscriber
  list is nil removes that characteristic's entry: assigning nil through a dictionary subscript
  deletes the key.

## Model

| member | source | states |
|---|---|---|
| PeripheralManagement.PeripheralManager.constructor | SwiftUI_BluetoothLowEnergy-main/BluetoothDemo/managers/PeripheralManager.swift:37-51 | a new manager has no services, subscriptions, history, platform requests or error |
| PeripheralManagement.PeripheralManager.CheckBluetooth | SwiftUI_BluetoothLowEnergy-main/BluetoothDemo/managers/PeripheralManager.swift:57-63 | succeeds iff the adapter is powered on; otherwise the error becomes bluetoothNotAvailable, and nothing else changes |
| PeripheralManagement.PeripheralManager.ValidateCharacteristic | SwiftUI_BluetoothLowEnergy-main/BluetoothDemo/managers/PeripheralManager.swift:104-121 | passes iff the pure rule check finds no violation; a failure reports that rule's reason as an add-service error |
| PeripheralManagement.PeripheralManager.ValidateIncludedService | SwiftUI_BluetoothLowEnergy-main/BluetoothDemo/managers/PeripheralManager.swift:123-129 | passes iff some added service has the UUID; otherwise reports the unpublished-include reason |
| PeripheralManagement.PeripheralManager.AddService | SwiftUI_BluetoothLowEnergy-main/BluetoothDemo/managers/PeripheralManager.swift:72-99 | when not powered on: nothing changes and bluetoothNotAvailable is reported; when the UUID is already added: "Service exists." is reported and nothing changes; otherwise: the service is appended and sent to the platform even when validations fail, and the error slot holds the last validation reason (characteristics first, then included services); distinct UUIDs are preserved |
| PeripheralManagement.PeripheralManager.RemoveService | SwiftUI_BluetoothLowEnergy-main/BluetoothDemo/managers/PeripheralManager.swift:134-152 | gated on power; when any added service includes the UUID: the removal error and no change; otherwise: every service identical to the argument is removed, the others keep their order, a remove request is issued, and distinct UUIDs are preserved |
| PeripheralManagement.PeripheralManager.StartAdvertising | SwiftUI_BluetoothLowEnergy-main/BluetoothDemo/managers/PeripheralManager.swift:156-181 | gated on power; with no services: "Please add service(s) to advertise." and no request; otherwise: advertises the added services' UUIDs in order; the services and the error slot are unchanged |
| PeripheralManagement.PeripheralManager.StopAdvertising | SwiftUI_BluetoothLowEnergy-main/BluetoothDemo/managers/PeripheralManager.swift:183-185 | issues a stop request in every state and changes nothing else |
| PeripheralManagement.PeripheralManager.UpdateValueHelper | SwiftUI_BluetoothLowEnergy-main/BluetoothDemo/managers/PeripheralManager.swift:204-230 | throws exactly the failure the pure update check gives (too long, then not mutable), and a throw changes nothing; otherwise one update request is issued; accepted: the value is prepended to that characteristic's history; refused: "Transmit queue is full" is set and nothing is thrown |
| PeripheralManagement.PeripheralManager.UpdateValue | SwiftUI_BluetoothLowEnergy-main/BluetoothDemo/managers/PeripheralManager.swift:189-201 | gated on power; the update always targets the first characteristic of the first added service, whatever the argument; a thrown failure lands in the error slot; otherwise as the helper |
| PeripheralManagement.PeripheralManager.DidUpdateState | SwiftUI_BluetoothLowEnergy-main/BluetoothDemo/managers/PeripheralManager.swift:236-240 | records the new power state; any state but powered on reports bluetoothNotAvailable |
| PeripheralManagement.PeripheralManager.WillRestoreState | SwiftUI_BluetoothLowEnergy-main/BluetoothDemo/managers/PeripheralManager.swift:242-257 | the restored services replace the added ones (none when the platform gave none); each restored mutable characteristic, in order, overwrites its entry with its reported subscribers, or removes the entry when the platform reported none |
| PeripheralManagement.PeripheralManager.DidAdd | SwiftUI_BluetoothLowEnergy-main/BluetoothDemo/managers/PeripheralManager.swift:259-267 | a failed add removes every service with that UUID and reports the platform's reason; success changes nothing; distinct UUIDs are preserved |
| PeripheralManagement.PeripheralManager.DidStartAdvertising | SwiftUI_BluetoothLowEnergy-main/BluetoothDemo/managers/PeripheralManager.swift:271-276 | an advertising failure is reported as a start-advertising error; success changes nothing |
| PeripheralManagement.PeripheralManager.DidSubscribe | SwiftUI_BluetoothLowEnergy-main/BluetoothDemo/managers/PeripheralManager.swift:278-289 | the subscription dictionary becomes the subscribe update of the old one |
| PeripheralManagement.PeripheralManager.DidUnsubscribe | SwiftUI_BluetoothLowEnergy-main/BluetoothDemo/managers/PeripheralManager.swift:291-295 | the subscription dictionary becomes the unsubscribe update of the old one |
| PeripheralManagement.PeripheralManager.DidReceiveRead | SwiftUI_BluetoothLowEnergy-main/BluetoothDemo/managers/PeripheralManager.swift:300-307 | the request is answered with success, carrying the newest recorded value or else the cached value |
| PeripheralManagement.PeripheralManager.DidReceiveWrite | SwiftUI_BluetoothLowEnergy-main/BluetoothDemo/managers/PeripheralManager.swift:313-338 | an empty batch gets no answer and changes nothing; otherwise the assembled buffer goes through the helper for the FIRST request's characteristic with no target centrals; only the first request is answered: invalidHandle when the helper throws, else success |
| Validation.ValidateCharacteristic | SwiftUI_BluetoothLowEnergy-main/BluetoothDemo/managers/PeripheralManager.swift:104-121 | a non-mutable characteristic always passes; a mutable one passes iff its properties, permissions and cached value are coherent; each of the three reasons is given exactly when its rule is the first one violated (cached value, then permissions, then unsupported property) |
| Validation.CharacteristicFailures | SwiftUI_BluetoothLowEnergy-main/BluetoothDemo/managers/PeripheralManager.swift:85-89 | no more reasons than characteristics, and none iff every characteristic passes |
| Validation.CharacteristicFailuresSingle | SwiftUI_BluetoothLowEnergy-main/BluetoothDemo/managers/PeripheralManager.swift:86 | a single characteristic reports its own reason when it fails and nothing when it passes |
| Validation.CharacteristicFailuresAppend | SwiftUI_BluetoothLowEnergy-main/BluetoothDemo/managers/PeripheralManager.swift:85-89 | the reasons of a concatenation are those of the first part followed by those of the second, so each failing characteristic reports once, in order |
| Validation.LastFailure | SwiftUI_BluetoothLowEnergy-main/BluetoothDemo/managers/PeripheralManager.swift:85-89 | the last reason reported is that of the last failing characteristic, which is the reason the error slot ends up holding |
| Validation.CachedReadWriteRejected | SwiftUI_BluetoothLowEnergy-main/BluetoothDemo/managers/PeripheralManager.swift:106-109 | a cached value on a read-write characteristic is rejected with the cached-value reason, whatever its permissions |
| Registry.RemoveAll | SwiftUI_BluetoothLowEnergy-main/BluetoothDemo/managers/PeripheralManager.swift:150 | the result holds exactly the services not selected, and is no longer than the input |
| Registry.RemoveAllAppend | SwiftUI_BluetoothLowEnergy-main/BluetoothDemo/managers/PeripheralManager.swift:150 | removal keeps relative order: it distributes over concatenation |
| Registry.RemoveAllNothingSelected | SwiftUI_BluetoothLowEnergy-main/BluetoothDemo/managers/PeripheralManager.swift:262 | removal leaves a list alone when nothing in it is selected |
| Registry.RemoveAllKeepsDistinct | SwiftUI_BluetoothLowEnergy-main/BluetoothDemo/managers/PeripheralManager.swift:81-84 | removal preserves distinct service UUIDs |
| Registry.AppendNewKeepsDistinct | SwiftUI_BluetoothLowEnergy-main/BluetoothDemo/managers/PeripheralManager.swift:81-98 | appending a service with a new UUID preserves distinct UUIDs, so the duplicate guard keeps the list duplicate-free |
| Registry.UuidsOf | SwiftUI_BluetoothLowEnergy-main/BluetoothDemo/managers/PeripheralManager.swift:176 | the advertised UUIDs are the added services' UUIDs, one per service, in order |
| Registry.IncludedFailures | SwiftUI_BluetoothLowEnergy-main/BluetoothDemo/managers/PeripheralManager.swift:91-95 | exactly one unpublished-include reason per included UUID not yet added (counted), and none iff all are added |
| Registry.IncludedFailuresAppend | SwiftUI_BluetoothLowEnergy-main/BluetoothDemo/managers/PeripheralManager.swift:91-95 | the reasons of a concatenation are those of the first part followed by those of the second |
| Registry.AfterReportsAppend | SwiftUI_BluetoothLowEnergy-main/BluetoothDemo/managers/PeripheralManager.swift:85-95 | reporting two batches one after the other leaves the slot as reporting their concatenation |
| Registry.UnpublishedIncludeReported | SwiftUI_BluetoothLowEnergy-main/BluetoothDemo/managers/PeripheralManager.swift:91-98 | including a service not yet added reports exactly the unpublished-include reason |
| Subscriptions.Without | SwiftUI_BluetoothLowEnergy-main/BluetoothDemo/managers/PeripheralManager.swift:283 | removing a central keeps exactly the other centrals |
| Subscriptions.OccurrencesAppend | SwiftUI_BluetoothLowEnergy-main/BluetoothDemo/managers/PeripheralManager.swift:287 | occurrence counts add up over concatenation |
| Subscriptions.OccurrencesPositive | SwiftUI_BluetoothLowEnergy-main/BluetoothDemo/managers/PeripheralManager.swift:283 | a central occurs a positive number of times iff it is in the list |
| Subscriptions.WithoutCounts | SwiftUI_BluetoothLowEnergy-main/BluetoothDemo/managers/PeripheralManager.swift:283 | removal drops exactly the occurrences of that central and no other central's |
| Subscriptions.WithoutAppend | SwiftUI_BluetoothLowEnergy-main/BluetoothDemo/managers/PeripheralManager.swift:283 | removal distributes over concatenation, so it keeps relative order |
| Subscriptions.WithoutAbsent | SwiftUI_BluetoothLowEnergy-main/BluetoothDemo/managers/PeripheralManager.swift:293 | removing an absent central changes nothing |
| Subscriptions.SubscribeSpec | SwiftUI_BluetoothLowEnergy-main/BluetoothDemo/managers/PeripheralManager.swift:282-288 | after a subscribe the central occurs exactly once, as the last subscriber; the other subscribers keep their order; other keys are untouched |
| Subscriptions.UnsubscribeSpec | SwiftUI_BluetoothLowEnergy-main/BluetoothDemo/managers/PeripheralManager.swift:292-294 | after an unsubscribe the central is gone; other centrals keep their counts; the key stays, possibly with an empty list; an absent key stays absent |
| Subscriptions.SubscribeThenUnsubscribe | SwiftUI_BluetoothLowEnergy-main/BluetoothDemo/managers/PeripheralManager.swift:278-295 | subscribing then unsubscribing the same pair leaves the other subscribers as before |
| Subscriptions.AllCharacteristics | SwiftUI_BluetoothLowEnergy-main/BluetoothDemo/managers/PeripheralManager.swift:249-251 | holds exactly the characteristics of the services that list some |
| Subscriptions.RestoreAllKeys | SwiftUI_BluetoothLowEnergy-main/BluetoothDemo/managers/PeripheralManager.swift:249-254 | a key the map did not have before the restore is present afterwards only if some restored mutable characteristic with that key reported a subscriber list |
| Subscriptions.RestoreAllUntouched | SwiftUI_BluetoothLowEnergy-main/BluetoothDemo/managers/PeripheralManager.swift:252-253 | entries of keys no restored mutable characteristic has keep their subscribers |
| Subscriptions.RestoreAllLastWins | SwiftUI_BluetoothLowEnergy-main/BluetoothDemo/managers/PeripheralManager.swift:253 | the last mutable characteristic restored with a key decides it: with a reported list the key holds those subscribers, with a nil list the key is absent |
| ValueEngine.MinUpdateLength | SwiftUI_BluetoothLowEnergy-main/BluetoothDemo/managers/PeripheralManager.swift:206 | the smallest of the centrals' maximum update lengths: one of them, and no larger than any |
| ValueEngine.EffectiveMtu | SwiftUI_BluetoothLowEnergy-main/BluetoothDemo/managers/PeripheralManager.swift:206 | 512 when no centrals (or an empty list) are targeted, otherwise the minimum of their maximum update lengths |
| ValueEngine.UpdateFailure | SwiftUI_BluetoothLowEnergy-main/BluetoothDemo/managers/PeripheralManager.swift:206-216 | no failure iff the data fits the MTU and the characteristic is mutable; oversize data fails as "Data is too long." first; data that fits on a non-mutable characteristic fails as "Characteristic cannot be convert to mutable"; every failure is an update-value error |
| ValueEngine.ReadResponse | SwiftUI_BluetoothLowEnergy-main/BluetoothDemo/managers/PeripheralManager.swift:304 | the newest recorded value when the history is non-empty, otherwise the characteristic's cached value |
| ValueEngine.PushSpec | SwiftUI_BluetoothLowEnergy-main/BluetoothDemo/managers/PeripheralManager.swift:221-225 | an accepted update adds exactly one entry, at the front of its key's history; it keeps every older entry and touches no other key |
| ValueEngine.ReadAfterPush | SwiftUI_BluetoothLowEnergy-main/BluetoothDemo/managers/PeripheralManager.swift:221-225 | after an accepted update, a read of that characteristic returns the pushed value, and reads of others are unchanged |
| ValueEngine.DropFirst | SwiftUI_BluetoothLowEnergy-main/BluetoothDemo/managers/PeripheralManager.swift:322 | the value past the offset, index by index, and empty when the offset is past the end |
| ValueEngine.WriteBufferAppend | SwiftUI_BluetoothLowEnergy-main/BluetoothDemo/managers/PeripheralManager.swift:317-325 | the buffer of two batches is the concatenation of their buffers |
| ValueEngine.WriteBufferSingle | SwiftUI_BluetoothLowEnergy-main/BluetoothDemo/managers/PeripheralManager.swift:318-323 | a request without a value contributes nothing; one at offset 0 contributes its whole value |
| ValueEngine.WriteBufferLength | SwiftUI_BluetoothLowEnergy-main/BluetoothDemo/managers/PeripheralManager.swift:317-325 | the buffer's length is the sum of the valued requests' lengths past their offsets |
| ValueEngine.AssembleWriteBuffer | SwiftUI_BluetoothLowEnergy-main/BluetoothDemo/managers/PeripheralManager.swift:315-325 | the loop builds exactly the buffer specified: valued requests in order, each past its offset |
| CharacteristicText.StepLabelsAreLabels | SwiftUI_BluetoothLowEnergy-main/BluetoothDemo/extensions/CB+utils.swift:14-27 | the loop over read, write-without-response, write and notify produces exactly the label list |
| CharacteristicText.PropertiesString | SwiftUI_BluetoothLowEnergy-main/BluetoothDemo/extensions/CB+utils.swift:12-34 | the formatter returns "(none)" when no label applies and otherwise the labels joined by ", " |
| CharacteristicText.DescribeNoneIff | SwiftUI_BluetoothLowEnergy-main/BluetoothDemo/extensions/CB+utils.swift:29-31 | the text is "(none)" iff none of the four labelled flags is set |
| CharacteristicText.DescribeIgnoresOtherFlags | SwiftUI_BluetoothLowEnergy-main/BluetoothDemo/extensions/CB+utils.swift:14-15 | flags other than the four labelled ones never change the text |
| CharacteristicText.LabelCounts | SwiftUI_BluetoothLowEnergy-main/BluetoothDemo/extensions/CB+utils.swift:16-26 | "read" and "notify" appear once iff their flag is set; "write" once iff write is set without write-without-response; "write(without response)" once alone and twice when write is set too |
| CharacteristicText.LabelOrder | SwiftUI_BluetoothLowEnergy-main/BluetoothDemo/extensions/CB+utils.swift:14-17 | the labels come in flag order: "read" first and "notify" last when present |
| CharacteristicText.FirstMatchDecides | SwiftUI_BluetoothLowEnergy-main/BluetoothDemo/extensions/CB+utils.swift:44-47 | the first descriptor with the user-description UUID decides the text (a non-string value gives "") |
| CharacteristicText.NoMatchIsEmpty | SwiftUI_BluetoothLowEnergy-main/BluetoothDemo/extensions/CB+utils.swift:44-49 | with no user-description descriptor the text is "" |
| CharacteristicText.UserDescription | SwiftUI_BluetoothLowEnergy-main/BluetoothDemo/extensions/CB+utils.swift:39-50 | the lookup returns "" with no descriptors, otherwise the first matching descriptor's string value, otherwise "" |
| Text.JoinHead | SwiftUI_BluetoothLowEnergy-main/BluetoothDemo/extensions/CB+utils.swift:33 | a join starts with the first part's first character |
| UuidStrings.TrimLeading | SwiftUI_BluetoothLowEnergy-main/BluetoothDemo/extensions/String+utils.swift:17 | a suffix of the input that does not start with white space |
| UuidStrings.TrimTrailing | SwiftUI_BluetoothLowEnergy-main/BluetoothDemo/extensions/String+utils.swift:17 | a prefix of the input that does not end with white space |
| UuidStrings.TrimPadded | SwiftUI_BluetoothLowEnergy-main/BluetoothDemo/extensions/String+utils.swift:17 | trimming removes exactly the white space around a piece that neither starts nor ends with it |
| UuidStrings.RawSplit | SwiftUI_BluetoothLowEnergy-main/BluetoothDemo/extensions/String+utils.swift:16 | splitting on commas gives at least one piece |
| UuidStrings.RawSplitJoin | SwiftUI_BluetoothLowEnergy-main/BluetoothDemo/extensions/String+utils.swift:16 | joining the raw pieces with commas gives back the string, and no piece holds a comma |
| UuidStrings.RawSplitAppend | SwiftUI_BluetoothLowEnergy-main/BluetoothDemo/extensions/String+utils.swift:16 | a comma separates the pieces of its two sides |
| UuidStrings.NonEmpty | SwiftUI_BluetoothLowEnergy-main/BluetoothDemo/extensions/String+utils.swift:16 | a piece is kept iff it is a non-empty piece of the input, and no more pieces are kept than given |
| UuidStrings.NonEmptySingle | SwiftUI_BluetoothLowEnergy-main/BluetoothDemo/extensions/String+utils.swift:16 | a single piece is kept exactly when it is non-empty (with the append lemma this fixes the kept pieces and their order) |
| UuidStrings.NonEmptyAppend | SwiftUI_BluetoothLowEnergy-main/BluetoothDemo/extensions/String+utils.swift:16 | dropping empty pieces distributes over concatenation |
| UuidStrings.SplitPieces | SwiftUI_BluetoothLowEnergy-main/BluetoothDemo/extensions/String+utils.swift:16 | every split piece is non-empty and holds no comma |
| UuidStrings.RawSplitNoComma | SwiftUI_BluetoothLowEnergy-main/BluetoothDemo/extensions/String+utils.swift:16 | a comma-free string is a single piece |
| UuidStrings.ParseUuid | SwiftUI_BluetoothLowEnergy-main/BluetoothDemo/extensions/String+utils.swift:17 | a string parses iff it is in the 36-character 8-4-4-4-12 form (either case), giving 16 bytes |
| UuidStrings.DecodeEncodeHex | SwiftUI_BluetoothLowEnergy-main/BluetoothDemo/extensions/String+utils.swift:17 | hexadecimal decoding undoes encoding |
| UuidStrings.FormatUuidShape | SwiftUI_BluetoothLowEnergy-main/BluetoothDemo/extensions/String+utils.swift:17 | the canonical text of a UUID is well formed and its digits encode the bytes |
| UuidStrings.ParseFormatRoundTrip | SwiftUI_BluetoothLowEnergy-main/BluetoothDemo/extensions/String+utils.swift:17 | parsing the canonical text of a 128-bit UUID gives the UUID back |
| UuidStrings.DecodeHexCaseless | SwiftUI_BluetoothLowEnergy-main/BluetoothDemo/extensions/String+utils.swift:17 | digit strings whose digits have the same values decode to the same bytes |
| UuidStrings.ParseIgnoresCase | SwiftUI_BluetoothLowEnergy-main/BluetoothDemo/extensions/String+utils.swift:17 | raising the hexadecimal letters to upper case never changes what a string parses to |
| UuidStrings.ParseUpperFormatRoundTrip | SwiftUI_BluetoothLowEnergy-main/BluetoothDemo/extensions/String+utils.swift:17 | the upper-case canonical text of a 128-bit UUID also parses back to that UUID |
| UuidStrings.ParseAll | SwiftUI_BluetoothLowEnergy-main/BluetoothDemo/extensions/String+utils.swift:17-19 | no more UUIDs than pieces, every one 16 bytes |
| UuidStrings.ParseAllSingle | SwiftUI_BluetoothLowEnergy-main/BluetoothDemo/extensions/String+utils.swift:17-19 | a piece yields its UUID iff it parses after trimming, and nothing otherwise |
| UuidStrings.ParseAllAppend | SwiftUI_BluetoothLowEnergy-main/BluetoothDemo/extensions/String+utils.swift:17-19 | parsing keeps the order of the pieces: it distributes over concatenation |
| UuidStrings.DroppedPiece | SwiftUI_BluetoothLowEnergy-main/BluetoothDemo/extensions/String+utils.swift:18-19 | a piece that does not parse is dropped without affecting the others |
| UuidStrings.CbUuids | SwiftUI_BluetoothLowEnergy-main/BluetoothDemo/extensions/String+utils.swift:12-20 | no list iff the string is empty; otherwise a possibly empty list, no longer than the pieces, of 128-bit UUIDs |
| UuidStrings.CbUuidsConcat | SwiftUI_BluetoothLowEnergy-main/BluetoothDemo/extensions/String+utils.swift:16-19 | two non-empty lists joined by a comma read as the concatenation of their UUID lists |
| UuidStrings.CbUuidsPadded | SwiftUI_BluetoothLowEnergy-main/BluetoothDemo/extensions/String+utils.swift:12-20 | a UUID in canonical text, padded with any white space, is read back as the one-element list |

## Left out

- The error slot's two-second auto-clear timer and the hop to the main queue are left out. `setError` is modelled as a direct assignment, made when the call happens.
- The `invalidManager` branches are left out. The platform manager is created in `init` and never cleared, so those branches cannot be reached.
- The second power check in `startAdvertising` is left out. It re-tests the state that `checkBluetooth` has just tested, so its stop-and-report branch cannot be reached.
- CoreBluetooth itself is left out. Requests to it are recorded in `calls`; its answers are parameters.
- The options passed to the platform manager are left out. These are the power alert and the restore identifier.
- Debug `print` output is left out.
- The restore dictionary is modelled as the optional list of restored services, which is the only key read.
- UUID equality compares bytes. In the model, a 16-bit UUID and its 128-bit expansion on the Bluetooth base UUID are two different UUIDs. Whatever the platform's UUID class decides for that pair is not part of this model.
- Swift strings are sequences of grapheme clusters; the model uses sequences of characters. Trimming and splitting agree on the ASCII inputs that can parse.
- The white-space set is the one the code trims, written out code point by code point.
- `String.data`, `Data+utils.swift`, the SwiftUI views and the app entry point are not part of this model. Neither are the Starscream and Web3 sample projects.
- WillRestoreState: the restore runs on the main queue in the code. The model applies it on the spot.
