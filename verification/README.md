# Verified model of requestCore

requestCore is a Go library for request handling that works the same over Gin, Fiber and net/http.
This Dafny project models the parts of it whose correctness does not show in any single function
and proves what they promise. `dafny verify dfyconfig.toml` checks everything.

Code that updates fields or runs loops is a class or a method here, and its `ensures` ties the new
state to a function of the old one. The lemmas are about those functions. Go's panics, error
returns and 64-bit arithmetic are written out (`Wrappers.Result`, `Numbers.Wrap`).

* **Sessions, flash, cookies** (`Session`, `Flash`, `SessionMiddleware`, `CookieStore`). A state
  machine interleaves mutations with any number of three-step saves. Flash messages over a client's
  whole request history refine one plain mailbox. Cookie tokens are modelled byte for byte around
  an abstract HMAC, AEAD and JSON.
* **The response protocol** (`Protocol`, `ProtocolProofs`, `ErrorAnswers`, `SuccessDelivery`,
  `HookRuns`, `LifecycleOrder`, and the classes in `RequestContext`, `Response`, `EndpointHandler`). Handlers,
  hooks, registries, panics and the transport are arbitrary; every action lands in one log, and the
  theorems read that log. `EndpointHandler.WrapHandler` ends with what they promise.
* **Codecs and ciphers** (`Base64`, `Hex`, `Aes`, `SecureParams`, `Des`, `PinBlock`,
  `Decimalization`, `PinOffset`). Padding, chaining, PIN blocks and offsets over any invertible
  block function.
* **Retries, delays, token refresh** (`Retry`, `CallApi`, `Backoff`, `TokenRefresh`).
* **Paths** (`Routing`, `PathSegments`, `FiberRouter`, `SkipApi`).

Some promises hold only under a condition. These are proved as equivalences, with the failing input:

* A clean session was saved as it is, for every interleaving with at most n mutations, if and only
  if n < 2^64 (`Session.CleanMeansSavedExactly`).
* What is done to the flash after the commit hook is never lost if and only if it is nothing but
  Peek and Has (`SessionMiddleware.LateOpsAreKeptExactly`); a message read there is delivered again
  (`SessionMiddleware.ReadAfterCommitIsDeliveredTwice`).
* Under a failing commit hook and a sound transport the success body is sent all the same if and only
  if the phases are done, the result encodes, and they tried to answer exactly once by something
  other than an error response (`SuccessDelivery.FailingHookExactly`,
  `SuccessDelivery.IgnoredWriteHidesTheHook`; `SuccessDelivery.SuccessSentExactly` for any hooks and
  transport).
* With the v1 fallback, the commit hooks run if and only if one of four listed things happens; when
  the fallback itself answers a failed request they do not, so its session is not saved
  (`HookRuns.HooksRunExactly`, `HookRuns.FallbackSkipsHooks`).
* A digit PIN comes back out of its block if and only if it has 4 to 9 digits; for 10 to 12 decoding
  silently gives an empty PIN (`PinBlock.PinRoundTripsExactly`).
* Prefix subtraction is digit-wise for all texts if and only if they have at most 18 digits
  (`PinOffset.SubTenDigitwiseExactly`, `PinOffset.LongZerosFail`).
* The worker delay is capped doubling if and only if 2 * max fits an int64
  (`Backoff.DelayIsCappedDoublingExactly`).
* The brace-rewriting loop is the one-pass map if and only if the braces are balanced
  (`Routing.TranslateIsOnePassExactly`).
* A leading or trailing slash of a path is ignored if and only if a condition on its first or last
  characters holds (`SkipApi.OneLeadingSlashIsStripped`, `SkipApi.TrailingSlashesAreStripped`).

Where comments and code disagree, the model follows the code:

* `v2/session/middleware.go:106` says a session is only saved if dirty. Saving the flash into it
  always counts as a mutation, so with a flash it is always dirty.
* `v2/webFramework/commit.go:65-67` promises that hooks run before the response is committed. On the
  v1 fallback path (`v2/response/defaults.go:102-116`) they do not run at all.
* `handlers/skip_api_call.go:28-30` says leading slashes are normalized away; only one is.

## Model

| member | source | states |
|---|---|---|
| Session.Session.Set | v2/session/session.go:74-83 | the key holds the value, every other key keeps its own, the session is dirty, the revision moves on by one modulo 2^64 |
| Session.Session.Delete | v2/session/session.go:86-92 | the key is gone, every other key keeps its value; dirty and revision as for Set |
| Session.Session.Clear | v2/session/session.go:95-101 | no key is left; dirty and revision as for Set |
| Session.MutationsLeave | v2/session/session.go:74-101 | after any list of mutations a key holds v if and only if the last one to touch it set it to v, or none touched it and it held v before |
| Session.Session.Save | v2/session/session.go:120-146 | the store gets exactly the data at the start, whatever mutations land meanwhile; none of those is lost; the flag is cleared only on success and at an unmoved revision |
| Session.CompleteClearsExactly | v2/session/session.go:138-146 | a finishing save clears the flag exactly when the mutations since its snapshot are a multiple of 2^64, and never changes the data; no bound on the run |
| Session.StepKeepsCounts | v2/session/session.go:74-146 | every step keeps each pending save's revision equal, modulo 2^64, to its snapshot's plus the mutations since, without any bound |
| Session.RunClearsExactly | v2/session/session.go:74-146 | so in every run, however long, that is exactly when a save clears the flag |
| Session.StepKeepsInv | v2/session/session.go:74-146 | each mutation, snapshot, store answer and completion keeps: clean data is original or accepted, and every pending save's revision counts the mutations since it |
| Session.RunKeepsInv | v2/session/session.go:74-146 | the same over every interleaving of fewer than 2^64 mutations |
| Session.SaveIsARun | v2/session/session.go:120-146 | the method Save leaves the session as a run of snapshot, acceptance, mutations and completion does |
| Session.WrappingRunHidesMutations | v2/session/session.go:138-146 | a save overtaken by exactly 2^64 mutations leaves a clean flag over data no store ever had |
| Session.CleanMeansSavedExactly | v2/session/session.go:74-146 | over every interleaving with at most n mutations a clean session holds its original or accepted data, if and only if n is below 2^64 |
| Flash.Flash.Add | v2/session/flash.go:25-30 | adding replaces the entry and makes it unread again |
| Flash.Flash.Get | v2/session/flash.go:34-47 | an unread entry is returned and consumed; otherwise the empty string and no change |
| Flash.Flash.Peek | v2/session/flash.go:50-57 | the same value without consuming it |
| Flash.Flash.GetAll | v2/session/flash.go:60-72 | exactly the unread entries are returned, and all are consumed, whatever the map's order |
| Flash.Flash.Clear | v2/session/flash.go:86-92 | everything is consumed, nothing removed |
| Flash.Flash.ActiveEntries | v2/session/flash.go:109-119 | exactly the unread entries, without change |
| Flash.LoadFlashFromSession | v2/session/flash.go:127-149 | both shapes of a stored flash map load, non-text values are dropped, nothing is marked read |
| Flash.SaveFlashToSession | v2/session/flash.go:152-162 | unread entries replace the stored ones, or the key goes; either way it is one mutation |
| SessionMiddleware.LoadFromCookie | v2/session/manager.go:28-42 | an absent and a refused cookie both give an empty clean session with a new id; an accepted one gives the stored one with its flash unread |
| SessionMiddleware.SaveToCookie | v2/session/manager.go:47-88 | flash is written first; a clean session is not saved; a failed save leaves it dirty; a successful one gives the token and a clean session |
| SessionMiddleware.PersistHook | v2/session/middleware.go:100-130 | with a flash the store is always written; a failed write fails the hook exactly in strict mode; only a successful one sets the cookie |
| SessionMiddleware.FlashRoundTrip | v2/session/flash.go:127-162 | saving unread entries and loading them back, through a server-side store or JSON, gives exactly those entries |
| SessionMiddleware.ServeRequest | v2/session/middleware.go:67-135 | a request over the session and flash objects, with load, handler, hook and late operations, does what the function Serve says, and its hook fails exactly for a refused save in strict mode |
| SessionMiddleware.ServeRefinesMail | v2/session/middleware.go:67-135 | one request, with its load, handler, hook and late operations, answers as a plain mailbox does |
| SessionMiddleware.HistoryRefinesMail | v2/session/middleware.go:67-135 | the same over every history of requests, loads and saves that succeed or fail included |
| SessionMiddleware.RequestKeepsData | v2/session/middleware.go:67-135 | a request that saves leaves the client, under every key but the flash's, with what the last mutation before its hook put there, or with what it found; one that does not save changes nothing |
| SessionMiddleware.DataAcrossRequests | v2/session/middleware.go:67-135 | after any history of requests that load and save, the next one finds exactly what the last mutation of each key left, in the shape the store gives it back |
| SessionMiddleware.LateOpsAreKeptExactly | v2/session/middleware.go:100-130 | whatever the client holds and was done before, nothing done after the hook is lost, if and only if it is only Peek and Has |
| SessionMiddleware.OneShotAcrossRequests | v2/session/flash.go:25-162 | the client's cookie holds v under k if and only if v was added and not read, cleared or replaced since, over any number of requests that save and only look at the flash after the hook |
| SessionMiddleware.NextGetDeliversOnlyUnread | v2/session/flash.go:34-47 | the next Get delivers an unread message and never a consumed one |
| SessionMiddleware.ReadAfterCommitIsDeliveredTwice | v2/session/middleware.go:100-130 | a message read only after the commit hook is delivered again by the next request |
| CookieStore.NewCookieStore | v2/session/cookie_store.go:83-113 | accepted exactly with a secret of at least 32 bytes and an encryption key, if any, of 32; the secret, the verification keys and the encryption key are kept, and the age and size unless they are zero, which give a day and 3800 |
| CookieStore.VerifySignature | v2/session/cookie_store.go:294-308 | true exactly if the secret or one of the verification keys gives this tag |
| CookieStore.SavedTokenExactly | v2/session/cookie_store.go:156-222 | a save succeeds exactly if the version 1 payload marshals and its encoded length fits; the token decodes to the payload, or to nonce and sealed payload, followed by the secret's tag |
| CookieStore.DecodeInvertsSign | v2/session/cookie_store.go:199-252 | splitting at 32 bytes and unwrapping inverts signing and wrapping, in any store with the same encryption key whose ring gives the tag |
| CookieStore.LoadRestoresSaved | v2/session/cookie_store.go:116-187 | loading a saved token gives back id, creation time and data, or the exact error: no key of the store gives the tag, else expired |
| CookieStore.RotatedKeyStillLoads | v2/session/cookie_store.go:294-308 | a store whose secret or verification keys include the old secret loads its unexpired tokens |
| CookieStore.LoadsExactly | v2/session/cookie_store.go:116-152 | a token loads as s if and only if it is a tagged body that the store's own or verification keys accept, opens to a version 1 payload that has not expired, and s is what that payload says |
| RequestContext.RequestContext.MarkCommitted | v2/webFramework/commit.go:23-30 | the first recorded status stays |
| RequestContext.RequestContext.RunBeforeCommitHooks | v2/webFramework/commit.go:83-99 | at most once, all hooks in registration order, the first error kept |
| RequestContext.RequestContext.SendResponse | v2/libNetHttp/parser.go:39-60 | nothing when committed or when a hook fails; otherwise one write, committed only if it succeeded |
| Response.CommitResponse | v2/response/handler.go:71-101 | hooks, then the write, then the commit; a failing hook or write stops it |
| Response.CommitErrorResponse | v2/response/defaults.go:81-94 | an error response goes on after a failing hook |
| Response.DefaultRegistry.Register | v2/response/registry.go:69-83 | accepted exactly before freezing, for a handler and a status from 100 to 599; then exactly that entry changes |
| Response.DefaultRegistry.Handle | v2/response/registry.go:108-157 | the handler for the resolved status, then the fallback if still uncommitted, or only the fallback |
| ErrorAnswers.SendsExactly | v2/libNetHttp/parser.go:39-60 | an attempt to answer: refused by a failing hook with nothing written, answered with its own status and body after the hooks that were due, or broken on the wire |
| ErrorAnswers.CommitsExactly | v2/response/handler.go:71-101 | the same for a commit of a success response |
| ErrorAnswers.ReportsExactly | v2/response/defaults.go:81-94 | an error response goes out with its own status after all hooks due, even when one fails |
| ErrorAnswers.FirstErrorExactly | v2/webFramework/commit.go:92-98 | the hook error reported is the first one |
| ErrorAnswers.PresetAnswersExactly | v2/response/defaults.go:62-94 | an error that resolves to a preset is answered with that preset's own status and body and settles it, even when a hook fails |
| ErrorAnswers.LegacyAnswersExactly | v2/response/defaults.go:102-116 | the v1 fallback settles the resolved status with its one write and no hook |
| ErrorAnswers.FallbackPresetAnswers | v2/response/registry.go:108-157 | a fallback preset takes over from one that does not encode |
| ErrorAnswers.UnhandledErrors | v2/response/registry.go:108-157 | without a handler nothing happens to the request; a committed one gets its error back |
| ErrorAnswers.RouterDispatchAnswers | v2/response/handler.go:210-228 | a router's own handler answers an error first, and 500 is for what it leaves open |
| ErrorAnswers.FailedPhaseGetsItsStatus | v2/handlers/base_handler.go:134-221 | an endpoint with a failed phase or an unencodable result ends with the status of the preset its error resolves to |
| ErrorAnswers.FailedPhaseFallsBack | v2/handlers/base_handler.go:134-221 | and through the v1 fallback with the resolved status |
| ErrorAnswers.CompletedRunSends200 | v2/handlers/base_handler.go:349-365 | an endpoint whose phases complete, unanswered and unrefused, sends its success body with 200 |
| ErrorAnswers.UnhandledProblemIsDispatched | v2/libNetHttp/router.go:190-223 | a problem without a handler reaches the router as the missing-handler error, not as itself |
| Response.Handler.Error | v2/response/handler.go:140-153 | a committed request is left alone; otherwise the registry answers |
| Response.Handler.OKWithRenderer | v2/response/handler.go:109-119 | an encoding failure goes to the registry, a success to the commit |
| Response.DispatchError | v2/response/handler.go:210-228 | the router's own handler, else a fixed 500, always marked |
| EndpointHandler.RunLifecycle | v2/handlers/base_handler.go:134-221 | the phases run as the stage list says, stopping at the first that is not done; tells whether the insert succeeded |
| EndpointHandler.FinalizeRequest | v2/handlers/base_handler.go:225-324 | recovery, finalizer, update, then the answer to a panic unless committed |
| EndpointHandler.ServeEndpoint | v2/handlers/base_handler.go:105-127 | the whole endpoint: no error comes back after a panic or a commit |
| EndpointHandler.WrapHandler | v2/libNetHttp/router.go:190-223 | the adapter dispatches only an error that comes back uncommitted; a fresh request ends with at most one response, ordered hooks and phases, and with exactly one under the v1 fallback and a sound transport |
| ProtocolProofs.CommitExactly | v2/response/handler.go:71-101 | the success body goes out if and only if no hook fails now and the write succeeds; a hook's error is returned with nothing written |
| ProtocolProofs.ReportErrorKeeps | v2/response/registry.go:108-157 | any registry and handlers keep at most one response and the hook order; with the v1 fallback the request always ends committed |
| ProtocolProofs.AdaptedRunIsSafe | v2/handlers/base_handler.go:105-345 | every adapted run: at most one response with the recorded status, hooks once each in order and before SendResponse writes, none of the initial ones skipped once any runs, phases as traced |
| ProtocolProofs.AdaptedRunWritesOnce | v2/response/defaults.go:102-116 | with the v1 fallback and a transport that does not fail, every run writes exactly one response |
| SuccessDelivery.SuccessSentExactly | v2/response/handler.go:71-101 | over any transport the success body is sent if and only if all phases are done, the result encodes, no hook fails or an attempt to answer used the hooks up, every attempt a failing hook did not refuse broke on the wire, and the next write does not |
| SuccessDelivery.FailingHookExactly | v2/response/handler.go:88-99 | under a hook that fails, from middleware or a phase, and a sound transport: exactly when phases and encoding succeed after one attempt to answer that is no error response |
| SuccessDelivery.FailingHookNeverSendsSuccess | v2/response/handler.go:88-99 | over any transport: if some hook fails, registered by middleware or a phase, and no phase tries to answer by itself, the success body is never sent |
| SuccessDelivery.IgnoredWriteHidesTheHook | v2/webFramework/commit.go:83-99 | the failing input, for every router, registry and hook error: a handler that sends one answer and ignores the refusal gets the success body sent after all |
| HookRuns.AnswerFollowsStages | v2/handlers/base_handler.go:134-221 | a lifecycle is its phases followed by the success commit, the error report or the panic |
| HookRuns.ReportRunsHooks | v2/response/registry.go:108-157 | an error answered with the v1 fallback in place runs the hooks if and only if the handler registered for its status does |
| HookRuns.HooksRunExactly | v2/webFramework/commit.go:83-99 | with the v1 fallback, any other handlers and any transport, a run calls its hooks if and only if a reached phase tries to answer, the phases complete, the registered handler answers, or the finalizer or update makes an attempt that still counts |
| HookRuns.FallbackSkipsHooks | v2/response/defaults.go:102-116 | the failing input: a request that does not parse, with nothing registered, ends committed with no hook called |
| ProtocolProofs.BareDispatchExactly | v2/response/handler.go:223-227 | without a router handler the request is marked in any case, and 500 is written if and only if no hook fails now |
| LifecycleOrder.InsertedExactly | v2/handlers/base_handler.go:160-190 | the insert counts as done exactly if parsing, id parsing and the insert were done |
| LifecycleOrder.PhasesStandInOrder | v2/handlers/base_handler.go:105-324 | phase events come in the order Parse, IdParse, Insert, Initialize, Main, Recover, Finalize, Update, each at most once; when a lifecycle phase starts, every configured one before it has passed |
| LifecycleOrder.LifecycleIsOrdered | v2/handlers/base_handler.go:105-324 | panics included: the handler starts once, exactly when all phases before it are done, and after each has passed; the recovery handler is told exactly of a panic; the finalizer exactly once, after every lifecycle event; the update once, exactly when the insert succeeded, after the finalizer |
| LifecycleOrder.AdaptedRunIsOrdered | v2/handlers/base_handler.go:105-324 | the log of every adapted run has its phases in those positions |
| Base64.DecodeOfEncode | libCrypto/ssm/aes.go:33-67 | Base64 in both alphabets decodes what it encodes, for all bytes |
| Base64.EncodesByTable | libCrypto/ssm/aes.go:51-67 | every group of three bytes, and a shorter last one, becomes the four characters with the same 24 bits in the alphabet of RFC 4648, padded with "=" |
| Base64.EncodedLength | v2/session/cookie_store.go:182-184 | four characters for every three bytes begun |
| Bytes.XorIsXor | libCrypto/ssm/ssm.go:123-126 | a bit of the exclusive or is set exactly where the two bytes' bits differ |
| Aes.PadFillsWholeBlocks | libCrypto/ssm/aes.go:12-30 | padding adds 1 to 16 bytes up to whole blocks, each byte their number, and unpadding takes exactly them off |
| Aes.CbcEncryptsBlocks | libCrypto/ssm/aes.go:51-67 | every cipher block is the cipher's image of its plain block xored with the cipher block before it, or with the IV |
| Aes.CbcDecryptsBlocks | libCrypto/ssm/aes.go:33-48 | every plain block is its cipher block deciphered and xored with the one before it, for any whole blocks |
| Aes.CipherTextExactly | libCrypto/ssm/aes.go:51-67 | an encrypted text decodes to those blocks of the padded text, under the decoded key and IV |
| Aes.CbcDecryptInverts | libCrypto/ssm/aes.go:33-67 | chained decryption inverts chained encryption for any invertible block function |
| Aes.EncryptBlocks | libCrypto/ssm/aes.go:51-67 | filling the buffer block by block gives the chained encryption |
| Aes.DecryptBlocks | libCrypto/ssm/aes.go:33-48 | filling the buffer block by block gives the chained decryption |
| Aes.AesEncrypt | libCrypto/ssm/aes.go:51-67 | the whole call: key error, IV panic or the Base64 of the padded encryption |
| Aes.AesDecrypt | libCrypto/ssm/aes.go:33-48 | the whole call, with its panics on partial blocks and bad padding |
| Aes.DecryptInvertsEncrypt | libCrypto/ssm/aes.go:33-67 | encryption succeeds exactly with a usable key and IV, and decryption then gives the text in Base64 |
| SecureParams.DecryptInvertsFillCipher | libParams/security.go:42-115 | encrypting a plain parameter succeeds exactly with a 16, 24 or 32-byte key and a 16-byte IV and gives its encryption; decrypting gives the original value for every string; encrypting again changes nothing |
| SecureParams.DecryptEdges | libParams/security.go:98-104 | a plain parameter is refused and an empty one given back |
| Hex.DecodesExactly | libCrypto/ssm/des.go:48-100 | hex decoding succeeds exactly on an even number of hex digits |
| Hex.EncodeAt | libCrypto/ssm/des.go:48-100 | each character is the table's digit for its half byte, high half first |
| Hex.DecodeAt | libCrypto/ssm/des.go:48-100 | and each half byte is the value of its character |
| Hex.EncodeOfDecode | libCrypto/ssm/des.go:48-100 | decoding loses only the case of the digits |
| Hex.DecodeOfEncode | libCrypto/ssm/des.go:48-64 | hex text, upper-cased or not, decodes to the encoded bytes |
| Des.RunBlocks | libCrypto/ssm/des.go:120-168 | the block loop gives the block-wise image of the data |
| Des.EcbInverts | libCrypto/ssm/des.go:120-168 | block-wise decryption inverts block-wise encryption |
| Des.DecryptInvertsEncrypt | libCrypto/ssm/des.go:48-100 | with a usable key, whole blocks of hex encrypt, and decrypt to the same digits in upper case |
| Des.CryptsExactly | libCrypto/ssm/des.go:48-168 | each output block is the image of the input block at its place, under single DES for 8 key bytes, triple DES for 24, and for 16 with the first half again at the end |
| PinBlock.XorInto | libCrypto/ssm/ssm.go:123-126 | the loop gives, byte by byte and bit by bit, the exclusive or, or panics when the second text is shorter |
| PinBlock.PlainBlockExactly | libCrypto/ssm/ssm.go:89-132 | under the cipher go sixteen hex digits, each the exclusive or of the PIN field (0, length, digits, F) and the account field (0000, PAN characters 3 to 14) at that place |
| PinBlock.BuildsExactly | libCrypto/ssm/ssm.go:89-132 | building succeeds exactly for a usable key, a hex PAN part and a hex PIN, or any PIN of unknown length |
| PinBlock.DecodeOfBuilt | libCrypto/ssm/ssm.go:174-221 | decoding a built block gives the PIN, an empty PIN or a panic, by the PIN's length alone |
| PinBlock.PinRoundTripsExactly | libCrypto/ssm/ssm.go:89-221 | an all-digit PIN comes back out of its block if and only if it has 4 to 9 digits |
| PinBlock.TranslateRebuilds | libCrypto/ssm/ssm.go:145-151 | translation gives the block built under the second key, and an empty text for 10 to 12 digits |
| Decimalization.Decimalize | libCrypto/ssm/pvv.go:106-141 | the index loops compute the two-pass or the immediate selection, cut to length, panics included |
| Decimalization.DecimalizesExactly | libCrypto/ssm/pvv.go:113-130 | the result is, place by place, the text's digits in order, then its letters A to F in order as their value less ten, cut to the length |
| Decimalization.ImmediateExactly | libCrypto/ssm/pvv.go:131-140 | the immediate form of every byte: a digit itself, A to F by value, a panic for G to J, 0 for the rest |
| Decimalization.UpperHexFillsTheLength | libCrypto/ssm/pvv.go:106-141 | upper-case hex gives every digit asked for, up to its own length |
| Decimalization.LowerHexKeepsOnlyDigits | libCrypto/ssm/pvv.go:106-141 | lower-case hex gives only its decimal digits, so it is too short exactly when it has too few |
| Decimalization.ImmediateIsValueModTen | libCrypto/ssm/pvv.go:131-140 | the immediate form maps each upper-case hex digit to its value modulo ten |
| PinOffset.SubTen | libCrypto/ssm/pvv.go:215-228 | the loop over growing prefixes, with its panic on short texts |
| PinOffset.PrefixDifference | libCrypto/ssm/pvv.go:215-228 | up to 18 digits no prefix overflows and no difference is negative |
| PinOffset.SubTenIsDigitwise | libCrypto/ssm/pvv.go:215-228 | up to 18 digits prefix subtraction is independent subtraction modulo ten |
| PinOffset.SubTenDigitwiseExactly | libCrypto/ssm/pvv.go:215-228 | it is so for all n-digit texts if and only if n is at most 18 |
| PinOffset.MalformedPrefixGivesBack | libCrypto/ssm/pvv.go:215-228 | from the first character that is no digit, the offset only repeats the decimalized digits |
| PinOffset.OffsetRecoversPin | libCrypto/ssm/pvv.go:231-240 | an offset comes out if and only if the length is at most 16; it has that length, and adding the cipher's digits back gives the PIN |
| TokenRefresh.RemoteApi.HandleToken | libCallApi/auth.go:85-123 | one critical section by fields: unchanged while the token is valid or nothing is configured; after a refresh the new access token, and the new refresh token if one came, else the old; after a login what it brought; empty after a failed one |
| TokenRefresh.SectionIsCritical | libCallApi/auth.go:85-123 | the machine's steps under the lock leave the cache as that method does |
| TokenRefresh.StepKeepsInv | libCallApi/auth.go:85-137 | every step keeps: one holder, exchanges only over an expired token, earlier tokens expired |
| TokenRefresh.RefreshIsSafe | libCallApi/auth.go:40-137 | for any callers and interleaving: exclusive sections, no exchange while a token is valid, login only without a usable refresh token or right after its failure, exchanges at most one plus expiries |
| TokenRefresh.LatestRefreshTokenIsKept | libCallApi/auth.go:98-118 | in every run the cached refresh token is the last one brought since the latest login began, or the one from the start |
| Retry.WithRetry | libRetry/retry.go:162-226 | the attempts are 1 to n in order, n being the first that stops; that attempt's response, status and error, or the cancelled sleep's error |
| Retry.RetryableExactly | libRetry/retry.go:230-288 | an attempt is retried exactly if a listed status shows anywhere in it, or an accepted timeout, a listed code or a listed key |
| Retry.AttemptsExactly | libRetry/retry.go:162-226 | for n >= 0 retries the attempts are the shortest prefix ending at one not worth another, a cut sleep, or attempt n + 1; the last one's response, status and error are returned |
| Retry.OutcomeIsUnique | libRetry/retry.go:162-288 | that description has only one result |
| Retry.NegativeRetriesNeverCall | libRetry/retry.go:162-226 | no attempt is made exactly for a negative or the largest retry count, and then neither response nor error is returned |
| CallApi.ExecuteSingleAttempt | handlers/callApi.go:309-370 | one record in metrics and callback alike, carrying the wrapped builder and the popped query |
| CallApi.CallWithRetries | handlers/callApi.go:253-304 | every attempt is recorded exactly once, from the same pinned parameters; the caller's headers and builder are untouched; the outcome is that of the retry loop |
| CallApi.RecordsAllAlike | handlers/callApi.go:267-303 | all records carry the same parameters and their own exchange's status and verdict |
| CallApi.AttemptsSeeExactly | handlers/callApi.go:267-303 | every attempt is seen with the head of the caller's query stack, or its query, with the caller's headers, and with the builder wrapped once |
| CallApi.ExchangeExactly | handlers/callApi.go:309-370 | what each exchange comes to: an error for no answer or any status outside 200 to 299, the builder's error, a timeout for a slow success, or success |
| CallApi.CallOnce | handlers/callApi.go:253-304 | without a policy the one attempt works on the caller's own parameters |
| Backoff.CalculateBackoff | v2/workers/retry.go:38-56 | the loop with its early break computes the doubled and capped delay, jitter added and capped again |
| Backoff.DelayIsCappedDoublingExactly | v2/workers/retry.go:38-46 | the delay is min(initial * 2^(attempt-1), max) for all inputs if and only if 2 * max fits an int64 |
| Backoff.DelayIsMonotone | v2/workers/retry.go:38-46 | later attempts never wait less, and stay between initial and max |
| Backoff.JitterIsAdded | v2/workers/retry.go:47-54 | the jitter amount is added to the delay and the sum capped; it is asked below half the delay |
| Backoff.JitterStaysInRange | v2/workers/retry.go:26-56 | jitter never shortens the delay, adds at most half, never passes max |
| Routing.ValidatePattern | v2/routing/contracts.go:115-135 | accepts exactly the patterns whose braces alternate; an error names the first offending brace by its byte position |
| Routing.TranslatePattern | v2/routing/contracts.go:87-111 | the loop ends on every input and gives the splice-by-splice translation, for gin and fiber only |
| Routing.TranslateIsOnePassExactly | v2/routing/contracts.go:87-111 | that translation is the one-pass brace map if and only if the braces are balanced |
| Routing.ValidPatternsTranslateInOnePass | v2/routing/contracts.go:87-135 | so on every valid pattern |
| Routing.JoinsWithOneSlash | v2/routing/contracts.go:138-152 | two non-empty paths are joined by exactly one slash, however many of them write it |
| Routing.JoinsExactly | v2/routing/contracts.go:138-152 | in general one final and one first slash make one, and an empty part adds none |
| Routing.JoinPathAssociative | v2/routing/contracts.go:138-152 | joining is associative on all strings |
| Routing.NestingIsFlat | v2/libNetHttp/router.go:239-261 | any nesting of groups gives a handler the pattern of one group with the joined prefix |
| PathSegments.JoinOfSplit | handlers/skip_api_call.go:80-85 | splitting loses nothing and leaves no separator in a segment |
| PathSegments.SplitOfJoin | handlers/skip_api_call.go:80-85 | and it is the only such list of segments |
| SkipApi.OneLeadingSlashIsStripped | handlers/skip_api_call.go:70-75 | for every text, a leading slash is ignored exactly when the text is blank, or begins with neither space nor slash, or is all slashes |
| SkipApi.TrailingSlashesAreStripped | handlers/skip_api_call.go:70-75 | for every text, a trailing slash is ignored exactly when the text is blank or does not end in a space |
| SkipApi.NormalizesExactly | handlers/skip_api_call.go:70-75 | of a text with outer white space, a leading slash and trailing slashes, normalizing leaves what is between them |
| SkipApi.EndpointMatchesSegments | handlers/skip_api_call.go:80-85 | matching is segment-list prefix, on all strings |
| SkipApi.CutIsSplit | handlers/skip_api_call.go:38-50 | counting colons and cutting at the first one is splitting |
| SkipApi.ShouldSkipAPICall | handlers/skip_api_call.go:30-66 | true exactly if some pattern of the list, anywhere in it, is well formed and matches endpoint segments and method |
| FiberRouter.SegmentsExactly | v2/libFiber/router.go:252-263 | a path's segments are the slash-free parts that, joined, give it back up to one leading slash; the empty path and "/" have none |
| FiberRouter.FiberPathMatches | v2/libFiber/router.go:229-249 | exactly segment-wise matching, so the string shortcut adds nothing |
| FiberRouter.SplitOfOnePass | v2/libFiber/router.go:252-263 | translating a pattern and cutting it into segments commute |
| FiberRouter.SegmentOfOnePass | v2/libFiber/router.go:240-247 | a translated segment takes anything exactly if the canonical one begins with a parameter, ':' or '*'; otherwise exactly the text it spells, an inner open brace being a colon |
| FiberRouter.TranslatedMatchesCanonical | v2/libFiber/router.go:229-263 | a valid pattern, translated for Fiber, matches exactly the paths its own canonical segments describe in that way |
| FiberRouter.FindWrongMethod | v2/libFiber/router.go:184-193 | the flag loop with its break is true exactly if some route matches the path and none with this method |
| FiberRouter.Router.Handle | v2/libFiber/router.go:93-104 | an invalid pattern registers nothing; a valid one is appended in translated form |
| FiberRouter.Router.CatchAll | v2/libFiber/router.go:167-205 | after a 404, the 405 handler if set and the path is known under other methods only, else the 404 handler |
| FiberRouter.WrongMethodIsCanonical | v2/libFiber/router.go:184-263 | the decision is the one the canonical patterns make, in any order and repetition of registrations |

## Left out

- AES, DES, HMAC-SHA-256, AES-GCM and JSON: function parameters that are invertible or lawful where a theorem needs it.
- Gin, Fiber, chi and net/http routing, real I/O, HTTP clients, tracing, logging and masking: not modelled; `SendResponse` stands for the net/http transport, and a write is one attempt that reaches the client whole or not.
- ProtocolProofs.AdaptedRunWritesOnce: counts the v1 fallback as one write and says nothing about its body or status, because the v1 handler resolves those on its own.
- ProtocolProofs.AdaptedRunIsSafe: hooks neither write nor panic, error handlers and the update step do not panic, and application code commits only through the v2 interfaces; the transaction outcome and tag collection of an endpoint are not modelled.
- Session.CleanMeansSavedExactly: speaks about the dirty flag only; a late older save may still overwrite a newer one inside a store.
- SessionMiddleware.OneShotAcrossRequests: asks that cookies load, hooks save and the flash is only looked at after the hook; LateOpsAreKeptExactly says why, and HistoryRefinesMail covers all histories.
- SessionMiddleware.SaveToCookie: leaves out the cookie's name, path, age and flags.
- TokenRefresh.RefreshIsSafe: the unlocked first look at the cache in Authenticate is one atomic step, and the errors for a missing lock or cache are left out.
- Routing.ValidatePattern: a pattern is valid UTF-8.
- Unicode case folding: the table behind strings.EqualFold is a parameter, a map from a character to the one that stands for all its cases.
- HookRuns.HooksRunExactly: for registries with the v1 fallback, which is what an endpoint gets by default.
- FiberRouter.Router.CatchAll: for routes registered on the root router, because a group keeps a list of its own; the original's 404 default status and handler dispatch belong to Fiber.
- Aes.AesDecrypt: the bytes Go's decoder leaves behind on malformed Base64, whose error is ignored, are a parameter.
- CallApi.CallWithRetries: log keys, titles, masking and the caller's error normalization are not modelled.
- EncryptParams and DecryptParams: loops over maps that apply the modelled calls to each entry.
- PVV and CVV generation beyond Decimalize, random PINs, the Mac stub, destroyed sessions, generated enums, header migration and the v1 handlers: they would add only easy members or have no provable promise.
- Middleware chains: a net/http sub-group applies its parent's middleware twice (`v2/libNetHttp/router.go:66-72`, `267-269`), so no single application is claimed.
- The query row cache: its expiry test is inverted and its timestamp is dropped, so there is no sound freshness claim.
