# fujinet-lobby server start-up, modelled in Dafny

The FujiNet lobby server is a small Go program (`server/main.go`). It keeps a
registry of game servers, serves documentation pages, and notifies event-server
webhooks. This project models the four pieces of logic in `main.go` that can be
stated precisely:

- **Address normalisation and documentation template** (`init_html`). The
  `-srvaddr` flag value is lower-cased. `http://` is put in front unless the
  lower-cased value already starts with it. A `/` is put at the end unless one
  is already there. Then every `$$srvaddr$$` in the embedded page is replaced
  with the result, and after that every `$$version$$` with the version string
  `5.5.1rc/multiple-web-hooks`.
  Modules `Text` (lower-casing, `HasPrefix`/`HasSuffix`, `bytes.Index`,
  `bytes.ReplaceAll`) and `DocTemplate`.
- **Webhook list assembly** (`init_webhook`). The loop walks the `-evtaddr`
  values and appends each one to `EVTSERVER_WEBHOOKS`. At the first value that
  `url.Parse` rejects, it logs a warning and returns, so that value and all
  later ones are dropped. A host that `net.LookupIP` cannot resolve only gets a
  warning. The address is still appended, even though the warning text says
  the event server "won't be used". Module `Webhooks` gives the specification
  functions. The loop itself is `Lobby.LobbyServer.InitWebhook`.
- **Logical clock** (`init_scheduler`, `ticker`). `TIME` is a `uint64` that is
  reset to 0. Each firing of the one-second job adds one, wrapping modulo 2^64,
  and the job always returns a nil error. Modules `Clock` and `Lobby`.
- **Start-up mode** (`main`). `-version` prints the version. Otherwise `-help`
  or an empty `-srvaddr` prints the help. Otherwise the subsystems are
  initialised and the server runs. Module `Startup`, plus
  `Lobby.LobbyServer.Start` for the effect on the state.

The package-level variables `TIME`, `DOCHTML` and `EVTSERVER_WEBHOOKS` are the
fields of the class `Lobby.LobbyServer`. Its methods update them in place, as
the Go functions do. `url.Parse` and `net.LookupIP` are library and network
calls. They are parameters: `parse: string -> Option<Url>` and
`lookup: string -> bool`. The WARN and INFO lines of `init_webhook` are
returned as a log, so it is visible that the DNS lookup only adds warnings.

An unparseable address is not just skipped: the loop returns
(`server/main.go:202-206`), so that address and every later one are dropped.
Addresses appended before it stay in the list, even though the warning says the
event server won't be used.

Because the address is substituted before the version, a `$$version$$` that
reaches the page through the address is filled in as well
(`DocTemplate.RenderDocTagInsideAddress`).

## Model

| member | source | states |
|---|---|---|
| `Text.ToLower` | server/main.go:180 | the result has the input's length, each character is the lower-cased input character, no upper-case letter is left, and an already lower-case string is unchanged |
| `Text.HasPrefix` | server/main.go:182 | `strings.HasPrefix`: the text is at least as long as the prefix and its first characters are the prefix |
| `Text.HasSuffix` | server/main.go:186 | `strings.HasSuffix`: the text is at least as long as the suffix and its last characters are the suffix |
| `Text.ReplaceAll` | server/main.go:190-191 | `bytes.ReplaceAll` for a non-empty pattern: a left-to-right scan that emits the replacement at each occurrence and resumes after it; its properties are the `Text.ReplaceAll…` lemmas below |
| `Text.IndexOfIsFirst` | server/main.go:190-191 | the search used by `bytes.ReplaceAll` (`Text.IndexOf`) returns the first position where the pattern occurs, with no occurrence before it, or -1 exactly when the pattern does not occur |
| `Text.ReplaceAllNoMatch` | server/main.go:190-191 | replacing a pattern that does not occur leaves the text byte-for-byte unchanged |
| `Text.ReplaceAllByIndex` | server/main.go:190-191 | the left-to-right replacement equals the search-driven loop (`Text.ReplacesAtFirst`): copy up to the first occurrence, emit the replacement, continue after the occurrence (so occurrences never overlap), and copy the rest when none is left |
| `Text.ReplaceAllSplice` | server/main.go:190-191 | an occurrence surrounded by text that cannot start the pattern is replaced and nothing else changes |
| `DocTemplate.NormalizeAddress` | server/main.go:180-188 | the result is lower case, starts with `http://` and ends with `/`; it is the lower-cased address, with `http://` in front only when it was missing, and `/` appended exactly when missing |
| `DocTemplate.NormalizeFixedPoint` | server/main.go:180-188 | normalisation leaves an address unchanged exactly when it is already lower case, starts with `http://` and ends with `/` |
| `DocTemplate.NormalizeIdempotent` | server/main.go:180-188 | normalising a normalised address returns it unchanged: the scheme and the slash are never added twice |
| `DocTemplate.NormalizeUpperCaseScheme` | server/main.go:180-184 | an address starting with `HTTP://` keeps one scheme, because the scheme test runs after lower-casing |
| `DocTemplate.RenderDoc` | server/main.go:190-191 | `DOCHTML` after `init_html`: every `$$srvaddr$$` replaced by the normalised address, then every `$$version$$` by the version string; its properties are the `DocTemplate.RenderDoc…` lemmas below |
| `DocTemplate.RenderDocWithoutTags` | server/main.go:190-191 | a page with neither `$$srvaddr$$` nor `$$version$$` is returned unchanged |
| `DocTemplate.RenderDocAddress` | server/main.go:190-191 | an `$$srvaddr$$` between plain text becomes the normalised address and the text around it is kept |
| `DocTemplate.RenderDocVersion` | server/main.go:190-191 | a `$$version$$` between plain text becomes the version string `5.5.1rc/multiple-web-hooks` and the text around it is kept |
| `DocTemplate.RenderDocTagInsideAddress` | server/main.go:190-191 | the address is substituted first, so a `$$version$$` given as the address ends up as `http://<version>/` in the page |
| `Webhooks.AcceptedWebhooks` | server/main.go:200-217 | what the loop appends to `EVTSERVER_WEBHOOKS`: addresses in input order up to, not including, the first one `url.Parse` rejects; characterised by `Webhooks.AcceptedIsLongestPrefix` and `Webhooks.AcceptedIsUnique` |
| `Webhooks.WebhookLog` | server/main.go:200-217 | the WARN/INFO lines of the loop in order: per accepted address an optional "cannot be resolved" warning and a "will be used" line, ending with the "not a valid url" warning at the first rejected address |
| `Webhooks.AcceptedIsLongestPrefix` | server/main.go:200-217 | the appended addresses (`Webhooks.AcceptedWebhooks`) are a prefix of the input, each of them parses, and when the prefix is shorter than the input the next address does not parse |
| `Webhooks.AcceptedIsUnique` | server/main.go:200-206 | any prefix that parses throughout and stops at the end or at an unparseable address is exactly the appended list, so the appended list is the longest all-parseable prefix |
| `Webhooks.AnnouncedAreAccepted` | server/main.go:200-217 | the addresses logged as "will be used" are exactly the appended ones, in input order, for every outcome of the DNS lookup |
| `Webhooks.LookupIrrelevant` | server/main.go:208-215 | two different DNS lookup outcomes lead to the same announced webhook list |
| `Webhooks.LogSplitsAtDrop` | server/main.go:200-217 | the log is the log of the appended addresses, followed by one invalid-URL warning naming the first dropped address when an address was dropped, and by nothing otherwise |
| `Webhooks.NoInvalidUrlWhenAllParse` | server/main.go:202-206 | when every address parses, no invalid-URL warning is logged |
| `Webhooks.InvalidUrlEndsLog` | server/main.go:202-206 | an invalid-URL warning is logged exactly when some address was dropped; it names the first dropped address, it is the last line, and no earlier line is one |
| `Webhooks.AcceptedAppend` | server/main.go:200-217 | for a list of two parts, the second part is only reached when every address of the first part was accepted; otherwise the result is that of the first part alone |
| `Clock.Inc` | server/main.go:136 | `TIME += 1` on a `uint64` is the successor modulo 2^64 |
| `Clock.AdvanceAdds` | server/main.go:134-138 | `n` firings of the ticker add `n` to the clock modulo 2^64 |
| `Clock.CountsFiringsFromZero` | server/main.go:120-138 | started from 0, the clock equals the number of firings as long as fewer than 2^64 have happened |
| `Clock.MonotonicBeforeWrap` | server/main.go:120-138 | started from 0, more firings never give a smaller clock before the wrap |
| `Clock.WrapsAfterModulus` | server/main.go:35 | 2^64 firings bring the `uint64` clock back to its starting value |
| `Startup.SelectMode` | server/main.go:65-73 | `-version` gives the version exactly when set; help exactly when `-version` is unset and `-help` is set or the address is empty; running exactly when neither flag is set and the address is non-empty |
| `Startup.DefaultsRunServer` | server/main.go:57-73 | with no flags the default address `:8080` starts the server |
| `Lobby.LobbyServer.constructor` | server/main.go:32-49 | at process start the clock is 0, the webhook list is empty and the page is the embedded one |
| `Lobby.LobbyServer.InitScheduler` | server/main.go:117-129 | the clock is reset to 0 and no error is returned |
| `Lobby.LobbyServer.Tick` | server/main.go:132-140 | one firing sets the clock to its successor modulo 2^64 and returns no error |
| `Lobby.LobbyServer.InitHtml` | server/main.go:178-192 | the page is replaced by the page with both placeholders filled in |
| `Lobby.LobbyServer.InitWebhook` | server/main.go:195-219 | the webhook list becomes the old list followed by the longest all-parseable prefix of the input, so old entries are kept, order is kept and an empty input changes nothing; the log is the WARN/INFO sequence of the loop |
| `Lobby.LobbyServer.Start` | server/main.go:51-81 | the mode is the start-up decision; without running nothing changes; when running, the clock has been reset to 0 by `InitScheduler`, the page is rendered and the accepted webhooks are appended |

## Left out

- The gin router, the HTTP handlers and `router.Run` (`server/main.go:83-93`) are HTTP I/O. The handlers, the registry (`lobbyDB`, `UpsertServer`, `DeleteServer`, the expiry sweep) and the webhook dispatch live in files that are not part of this model.
- OS signal handling and `os.Exit` (`server/main.go:142-165`) are process I/O and concurrency.
- Logger construction and the `LOG_LEVEL` lookup (`server/main.go:101-115`) are I/O configuration. WARN and INFO output is modelled only as the returned log of `InitWebhook`.
- `Lobby.LobbyServer.Start`: runs start-up as one sequence. In the program the ticker is registered by `init_scheduler` (`server/main.go:122-125`) before the page and the webhooks are set up, and `init_webhook` makes network calls, so `TIME` may already be above 0 when start-up ends. Ticker firings during start-up are not modelled.
- `Lobby.LobbyServer.InitScheduler`: the `tasks` scheduler's one-second timing and goroutines are concurrency. Only the counter reset and the effect of one firing (`Tick`) are modelled.
- `init_scheduler` declares a local `SCHEDULER` with `:=` (`server/main.go:118`). This shadows the package-level `SCHEDULER`, which is therefore never assigned. This is not modelled.
- `time.Now`, `uptime` (`server/main.go:168-175`) and `init_db` are wall-clock and registry set-up. The embedded pages are opaque data, passed to the constructor.
- Printing the version or the flag defaults, and parsing the flags (`flag.Parse`, the `ArrayOfParams` type), are not modelled. The parsed flag values are the inputs of `Startup.SelectMode` and `Lobby.LobbyServer.Start`.
- `Text.ToLower`: lower-cases ASCII letters only. Go's `strings.ToLower` maps every Unicode upper-case letter and can change the byte length of non-ASCII text.
- `Text.ReplaceAll`: defined for a non-empty pattern only. Both call sites pass non-empty literals. `bytes.ReplaceAll` with an empty pattern inserts the replacement between UTF-8 sequences, which is not modelled.
- `DOCHTML` is a byte slice. It is modelled as a string with one character per byte.
- `url.Parse` and `net.LookupIP` are abstract parameters. Their grammar and DNS behaviour are not modelled, and of the parsed URL only the host is kept.
- Concurrency between the ticker and the HTTP handlers that read `TIME` is not modelled.
