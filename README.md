# ESP-Miner HTTP control plane, modelled in Dafny

This project models the HTTP server of the ESP-Miner (Bitaxe) firmware, `main/http_server/http_server.c`:

- **Network gate** (`is_network_allowed`). It admits a request only when the device runs its own access point, or when both the peer address and the `Origin` host are private IPv4 addresses under RFC 1918.
- **Small handlers.** The CORS headers, the OPTIONS answer, the `/api/*` fallback, the recovery page and the captive-portal 404 redirect.
- **Static files.** The static-file handler maps a URI to a gzip-compressed file, chooses its content type and streams it in 10240-byte chunks.
- **Settings.** `PATCH /api/system` receives a JSON body and applies its fields to the configuration store.
- **Web-application update** (`POST /api/system/OTAWWW`). It erases the `www` partition and writes the body into it as it arrives.
- **Firmware update** (`POST /api/system/OTA`). It streams the body through the OTA API, then validates the image, activates it and restarts.
- **Route table.** `start_rest_server` registers the routes, and the server dispatches each request to the first handler that matches.

A response is modelled as the sequence of `esp_http_server` calls the handler makes (`Http.Event`). A complete response is ended exactly once, by its last call.

What the environment decides is passed in as parameters:

- the results of receive calls, `recv: nat -> int`, indexed by call number; -3 is a timeout
- the results of flash and OTA calls
- the peer address and `Origin` header
- the Wi-Fi mode and the file system contents
- the JSON parser

State the source changes in place is modelled with classes:

- `Update.SystemModule` holds the update flag, file name and status text.
- `Update.Partition` holds the flash bytes as an array.
- `Update.OtaSession` holds the OTA call log and the image written.
- `Settings.NvsStore` holds the configuration.
- `Routes.Server` holds the handler table.

Modules, one file each:

| module | file |
|---|---|
| `Common` | `common.dfy` |
| `Json` | `json.dfy` |
| `Gate` | `gate.dfy` |
| `Http` | `http.dfy` |
| `StaticFiles` | `static_files.dfy` |
| `Settings` | `settings.dfy` |
| `Update` | `update.dfy` |
| `Routes` | `routes.dfy` |

Two consequences of the code's layout:

- **Web-application image layout.** The web-application image is written at `size - remaining`, so it ends at the end of the partition. The bytes in front of it stay erased (`Update.Flashed`, `Update.FlashedLayout`).
- **Recovery mode.** In recovery mode, `/recovery`, the theme routes and the fixed `/api/...` routes are registered before the recovery catch-all, so they are still served (`Routes.RecoveryGet`, `Routes.RecoveryServesNoFiles`).

## Model

| member | source | states |
|---|---|---|
| Gate.IpInPrivateRange | main/http_server/http_server.c:115-134 | ESP_OK exactly when the address, read in network byte order, lies in 10/8, 172.16/12 or 192.168/16 |
| Gate.PrivateIffRfc1918 | main/http_server/http_server.c:115-134 | for every dotted address a.b.c.d stored as `s_addr`, the range check accepts it iff it is an RFC 1918 address |
| Gate.SentinelsNotPrivate | main/http_server/http_server.c:136-167 | the values `extract_origin_ip_addr` returns for a missing or invalid host (0 and INADDR_NONE) are never private, so such an Origin is refused |
| Gate.ExtractOriginIpAddr | main/http_server/http_server.c:136-167 | 0 without "http://"; 0 when the host part (up to the next '/') has 16 or more characters; otherwise `inet_addr` of the host |
| Gate.ExtractOriginOfDotted | main/http_server/http_server.c:136-167 | for every address and path, "http://a.b.c.d/path" yields exactly the address a.b.c.d |
| Gate.NoHttpPrefixGivesZero | main/http_server/http_server.c:139-166 | an Origin that contains no "http://" anywhere gives 0 |
| Gate.ReadOrigin | main/http_server/http_server.c:194-203 | the Origin header is read only when it fits the 128-byte buffer with its NUL, i.e. is under 128 characters; a longer one reads as absent |
| Gate.IsNetworkAllowed | main/http_server/http_server.c:169-211 | AP mode admits everything; a failed `getpeername` refuses; otherwise both the peer and the Origin address must be private, the peer standing in for an Origin that is absent or too long for the 128-byte buffer |
| Gate.GateLongOrigin | main/http_server/http_server.c:194-206 | in station mode an Origin of 128 characters or more is decided as if absent: admitted iff the peer is private, whatever the Origin says |
| Gate.GateWithoutOrigin | main/http_server/http_server.c:197-206 | without an Origin header, a station-mode request is admitted iff its peer is private |
| Gate.GateRefusesNonHttpOrigin | main/http_server/http_server.c:197-210 | in station mode, an Origin under 128 characters with no "http://" is always refused, whatever the peer |
| Gate.GateAdmitsLanOrigin | main/http_server/http_server.c:169-211 | a private peer with an Origin "http://a.b.c.d/..." under 128 characters naming a private address is admitted |
| Http.SetHeaders | main/http_server/http_server.c:293-313 | headers are set in order up to the room left; ESP_OK iff all fit, and the calls made are exactly the headers that fit |
| Http.SetCorsHeaders | main/http_server/http_server.c:293-313 | the three CORS headers in order; ESP_FAIL iff fewer than three fit, with the ones before the failure already set |
| Http.CorsOr500Complete | main/http_server/http_server.c:442-445 | gate, then CORS, then a complete body is a complete response, ended by the body's last call or by a 500 when CORS failed |
| Http.HandleOptionsRequest | main/http_server/http_server.c:417-433 | 401 iff the gate refuses; otherwise the CORS headers and an empty body, or a 500 when CORS fails; always complete |
| Http.RestApiCommonHandler | main/http_server/http_server.c:331-354 | 401 iff refused; otherwise JSON type, CORS, then 404 with {"error": "unknown route"}, or 500 after a CORS failure |
| Http.RestRecoveryHandler | main/http_server/http_server.c:316-328 | 401 iff refused; otherwise a chunked response whose body is exactly the recovery page |
| Http.Http404ErrorHandler | main/http_server/http_server.c:1006-1017 | every unmatched request gets a complete 302 to "/" with a non-empty body |
| StaticFiles.TypeFromTable | main/http_server/http_server.c:270-291 | the type of the first extension in table order that the path ends with, ignoring case; text/plain when none matches |
| StaticFiles.SameExtensions | main/http_server/http_server.c:113 | two paths equal but for letter case end with the same extensions |
| StaticFiles.ContentTypeIgnoresCase | main/http_server/http_server.c:270-291 | any two paths equal but for letter case get the same content type |
| StaticFiles.ResolvedPathCases | main/http_server/http_server.c:363-368 | all URIs ending in '/' name the same index file; other URIs name distinct files |
| StaticFiles.FileHeaders | main/http_server/http_server.c:383-387 | gzip encoding always; the month-long Cache-Control iff the URI does not end in '/' |
| StaticFiles.StreamFile | main/http_server/http_server.c:389-414 | chunks of at most 10240 bytes that send a prefix of the file; ends with the empty chunk, or the empty chunk and a 500 after a failed send; the whole file when no read or send fails |
| StaticFiles.HeadThenStream | main/http_server/http_server.c:369-391 | headers sent before the chunks change neither the body nor how the response ends |
| StaticFiles.SendFile | main/http_server/http_server.c:383-414 | a found file: its content type and headers, then chunks sending a prefix of its bytes, ending with the empty chunk or a 500; all its bytes when no I/O fails |
| StaticFiles.RestCommonGetHandler | main/http_server/http_server.c:357-415 | content type first; a missing ".gz" file gives the captive-portal redirect; a present one gives its headers, then a prefix of its bytes, all of them when no I/O fails |
| Json.LookupMember | main/http_server/http_server.c:474 | the first member whose name equals the key ignoring case; none iff no name matches |
| Json.GetObjectItem | main/http_server/http_server.c:474 | a root that is not an object has no items |
| Settings.RuleWrite | main/http_server/http_server.c:474-557 | per field kind: strings only when the item is a string; positive-only values for frequency and core voltage; 0 for any overheat_mode; the item's valueint otherwise; nothing when the field is absent |
| Settings.ApplyRulesOverrides | main/http_server/http_server.c:474-557 | the result of a patch is the old configuration overridden by the patch's own writes, whatever the old configuration was |
| Settings.ApplyRulesIdempotent | main/http_server/http_server.c:474-557 | applying the same patch twice equals applying it once |
| Settings.ApplyRulesFrame | main/http_server/http_server.c:474-557 | a key that no rule writes keeps its value, or stays absent |
| Settings.ApplyRulesLastWrite | main/http_server/http_server.c:474-557 | a key written by a rule that no later rule overrides holds that rule's value |
| Settings.PatchEffect | main/http_server/http_server.c:474-557 | for each field of the handler: the value it writes, or the old value when it is absent or its guard fails |
| Settings.OverheatModeClears | main/http_server/http_server.c:525-527 | a present overheat_mode stores 0 whatever its value |
| Settings.NonPositiveAsicValuesIgnored | main/http_server/http_server.c:519-524 | a non-positive frequency or coreVoltage leaves the stored value unchanged |
| Settings.NonObjectWritesNothing | main/http_server/http_server.c:467-474 | a body that parses to something other than an object changes nothing |
| Settings.NulIndexAsWritten | main/http_server/http_server.c:447-465 | the length check as written: passes iff the length read as `int` is below 10240, and the NUL goes at that signed index |
| Settings.NulIndexAsWrittenOutOfBuffer | main/http_server/http_server.c:447-465 | a declared length of 2^31 passes the check as written and puts the NUL 2^31 bytes before the buffer |
| Settings.NulIndex | main/http_server/http_server.c:451-455 | the intended check: passes iff the declared length is below 10240 |
| Settings.NulIndexInBuffer | main/http_server/http_server.c:447-465 | the intended check keeps the NUL inside the buffer, and agrees with the code for every length below 2^31 |
| Settings.ReceivesAllWhenNoFailure | main/http_server/http_server.c:456-464 | when every receive delivers bytes, the whole body is received |
| Settings.NvsStore.Set | main/http_server/http_server.c:475 | one key set, the others unchanged |
| Settings.ReceiveBody | main/http_server/http_server.c:456-465 | the body exactly when every receive until it is complete returns bytes; none after a receive of 0 or less |
| Settings.ApplySettings | main/http_server/http_server.c:474-557 | the store after the guarded writes is the specification `ApplyRules` of the old store |
| Settings.PatchBody | main/http_server/http_server.c:447-561 | 500 "content too long" for a declared length from 10240 up to 2^31-1; 500 when a receive fails; 400 on invalid JSON; the rules applied and an empty chunk otherwise; the store changes only in that last case |
| Settings.PatchUpdateSettings | main/http_server/http_server.c:435-562 | 401 when refused, 500 when CORS fails, then each error answer of the body (for a declared length from 10240 up to 2^31-1, "content too long"); always complete; the store changes only for an accepted patch, and then exactly by its rules |
| Update.Taken | main/http_server/http_server.c:960 | a receive never stores more than was asked |
| Update.Ask | main/http_server/http_server.c:897 | each piece asked for is at most 1000 bytes and at most what remains |
| Update.PercentageInRange | main/http_server/http_server.c:914 | for images under about 42 MB the uint8_t percentage is 100 - remaining*100/total, between 0 and 100 |
| Update.KnownStatusFits | main/http_server/http_server.c:968-995 | every status text the handlers set fits the 20-byte status buffer, so none is cut short |
| Update.SystemModule.StartUpdate | main/http_server/http_server.c:873-875 | the update flag set, the file name, and the status "Starting..." |
| Update.SystemModule.SetStatus | main/http_server/http_server.c:902-915 | the new status text; the flag and file name unchanged |
| Update.SystemModule.EndUpdate | main/http_server/http_server.c:926 | the update flag cleared; the rest unchanged |
| Update.SetKnownStatus | main/http_server/http_server.c:902-915 | a status the handlers use is set, and every status set since a point stays a known one |
| Update.ReportProgress | main/http_server/http_server.c:914-915 | the status after each successful write is a known one, a "Working (p%)" text |
| Update.Answer | main/http_server/http_server.c:859-929 | each outcome's response: 401, the AP-mode 500, the missing-partition 500, the too-large 400, the stream errors, the success message; none when the device panics |
| Update.FinalStatus | main/http_server/http_server.c:968-995 | the status an update leaves is one of the fixed texts for each outcome |
| Update.Overwrite | main/http_server/http_server.c:907 | the bytes from the offset replaced, the rest kept, the length unchanged |
| Update.Partition.EraseRange | main/http_server/http_server.c:894 | a successful erase sets the range to 0xFF and leaves the rest; a failed one changes nothing |
| Update.Partition.Write | main/http_server/http_server.c:907 | a successful write puts the bytes at the offset and leaves the rest; a failed one changes nothing |
| Update.ContiguousDisjoint | main/http_server/http_server.c:907-917 | contiguous writes all succeed, stay inside their range, never overlap and start each where the last ended |
| Update.ContiguousCovers | main/http_server/http_server.c:896-918 | contiguous writes' lengths add up to the range they fill |
| Update.ErasedImage | main/http_server/http_server.c:894 | the erased partition is the image with nothing written yet |
| Update.ImageStep | main/http_server/http_server.c:907 | writing the next received bytes at the next offset extends the image in place |
| Update.WriteNext | main/http_server/http_server.c:907-911 | one loop write: on success the next bytes are in place, on failure nothing changes |
| Update.FlashedLayout | main/http_server/http_server.c:894-918 | one whole erase first, then writes only, none after a failure, inside the image's range at the end of the partition, adding up to the image on completion |
| Update.StreamRun | main/http_server/http_server.c:896-918 | the receive loop by its definition: a timeout retried, a receive of 0 or less a protocol error, a failed write a write error, completion once nothing remains; what is received never exceeds what remains, and all of it on completion |
| Update.RunWrites | main/http_server/http_server.c:907-911 | a run's write calls all succeed but a failing last one, exactly when it ends with a write error |
| Update.RunProtocolError | main/http_server/http_server.c:899-904 | a run ends with a protocol error only after some receive returned 0 or less without timing out |
| Update.RunCompletes | main/http_server/http_server.c:896-918 | with no failed receive and no failed write the run completes |
| Update.WritesOfRun | main/http_server/http_server.c:896-918 | contiguous writes, as many as the run's write calls, have the flags the write calls give them |
| Update.WritePiece | main/http_server/http_server.c:907-915 | one write logged at `size - remaining`; on success the next bytes in place and the progress reported; on failure "Write Error" and nothing in place |
| Update.StreamPiece | main/http_server/http_server.c:897-917 | a positive receive is written and the loop state advances exactly as the run's next step; a failed write ends it as the run does |
| Update.ReceiveNext | main/http_server/http_server.c:897-917 | one pass: a timeout moves to the next receive call, a failed receive ends with "Protocol Error", a received piece is written; each ending agrees with the run |
| Update.StreamToPartition | main/http_server/http_server.c:896-918 | timeouts retried; a protocol or write error stops with its status; the partition holds the bytes received, right-aligned; the outcome, bytes written and every write's flag are those of `StreamRun`; completion when no receive or write fails |
| Update.EraseAndStream | main/http_server/http_server.c:893-926 | a failed erase panics with nothing changed; otherwise the partition is flashed as received, with the outcome and writes of `StreamRun`, "Finished..." and the flag cleared on completion |
| Update.WwwAfterStart | main/http_server/http_server.c:880-926 | a missing partition or a body larger than it is refused before any flash operation; the erase-and-stream otherwise, ending as `StreamRun` does |
| Update.PostWwwUpdate | main/http_server/http_server.c:859-929 | each outcome iff its condition (gate, AP mode, partition, size, erase); nothing changes before the start; the response, status and flag of each outcome; the partition flashed as received, with the outcome and writes of `StreamRun`; completion when nothing fails |
| Update.OtaSession.Begin | main/http_server/http_server.c:957 | the begin logged; success iff ok; a fresh empty image on success |
| Update.OtaSession.Write | main/http_server/http_server.c:974 | the write logged; the bytes appended to the image iff it succeeds |
| Update.OtaSession.Abort | main/http_server/http_server.c:975 | the abort logged, the image unchanged |
| Update.OtaSession.End | main/http_server/http_server.c:989 | the validation logged, its result returned |
| Update.OtaSession.SetBootPartition | main/http_server/http_server.c:989 | the activation logged, its result returned |
| Update.OtaSession.Restart | main/http_server/http_server.c:1000 | the restart logged |
| Update.MarkersOfTrace | main/http_server/http_server.c:959-1000 | after a successful begin, an abort is made iff a write failed and a restart iff the update completed, each only as the last call |
| Update.ActivationTrace | main/http_server/http_server.c:985-1000 | successful writes followed by the activation calls are the trace of the outcome activation reports |
| Update.OtaCallsOfRun | main/http_server/http_server.c:959-986 | OTA calls of the loop's shape, as many writes as the run's write calls, have the flags the write calls give them |
| Update.OtaPiece | main/http_server/http_server.c:960-985 | a positive receive is written through the session and the loop state advances exactly as the run's next step; a failed write is followed by the abort and "Write Error" |
| Update.OtaReceiveNext | main/http_server/http_server.c:960-985 | one pass: a timeout moves to the next receive call, a failed receive ends with "Protocol Error", a received piece is written; each ending agrees with the run |
| Update.StreamToOta | main/http_server/http_server.c:959-986 | the OTA calls are successful writes, then a failed write and an abort on a write error; the image is the body's prefix received; the outcome, bytes written and every write's flag are those of `StreamRun`; completion when nothing fails |
| Update.OtaLength | main/http_server/http_server.c:954 | a declared length of 2^31 or more is read as negative and receives nothing |
| Update.Activate | main/http_server/http_server.c:988-1000 | activation only after validation, restart only after activation; "Validation Error" or "Rebooting..." |
| Update.OtaRunThenActivation | main/http_server/http_server.c:959-1000 | the loop's calls followed by the activation's keep the write flags of the run, and the outcome is the run's or, after completion, the activation's |
| Update.StreamAndActivate | main/http_server/http_server.c:959-1000 | the trace of each streamed outcome, the image received, and the final status; the outcome is `StreamRun`'s, or the activation's once it completed, with its bytes and write flags |
| Update.OtaAfterStart | main/http_server/http_server.c:956-1000 | a failed begin panics with nothing else done; otherwise the streamed trace and image, ending as `StreamRun` and the activation decide |
| Update.PostOtaUpdate | main/http_server/http_server.c:934-1003 | each outcome iff its condition (gate, AP mode, begin); nothing changes before the start; the response, status and flag of each outcome; the OTA trace and image, ending as `StreamRun` and the activation decide; completion when nothing fails |
| Routes.Server.RegisterUriHandler | main/http_server/http_server.c:1043-1056 | a registration is added iff the table has room; a full table stays unchanged |
| Routes.RegisterAll | main/http_server/http_server.c:1056-1186 | the routes that fit the room left are added in order, the rest dropped |
| Routes.StartRestServer | main/http_server/http_server.c:1039-1187 | a 20-entry table holding every registration in order when they fit, the first 20 otherwise |
| Routes.TableFits | main/http_server/http_server.c:1043-1059 | the whole table fits iff the theme API registers at most 5 handlers (6 in recovery mode) |
| Routes.FixedRoutesUnderApi | main/http_server/http_server.c:1061-1160 | every fixed route is an exact template under /api/ |
| Routes.Dispatch | main/http_server/http_server.c:1040 | a handler is found iff some registration serves the path and method, and it is the first one; 404 iff no template matches the path |
| Routes.FirstServing | main/http_server/http_server.c:1040 | the first registration that serves the request is the one dispatched to |
| Routes.FixedRouteReached | main/http_server/http_server.c:1050-1160 | a fixed route is reached when nothing registered before it takes the request |
| Routes.PatchSettingsRoute | main/http_server/http_server.c:1121-1127 | PATCH /api/system reaches the settings handler in both modes |
| Routes.OptionsRoute | main/http_server/http_server.c:1129-1135 | OPTIONS /api/system reaches the OPTIONS handler in both modes |
| Routes.OtaRoute | main/http_server/http_server.c:1137-1143 | POST /api/system/OTA reaches the firmware update in both modes |
| Routes.WwwRoute | main/http_server/http_server.c:1145-1151 | POST /api/system/OTAWWW reaches the web-application update in both modes |
| Routes.LastIsCatchAll | main/http_server/http_server.c:1162-1187 | the last registration is the GET catch-all of the mode |
| Routes.CatchAllServes | main/http_server/http_server.c:1180-1186 | "/*" for GET takes every GET |
| Routes.GetAlwaysServed | main/http_server/http_server.c:1162-1187 | every GET finds a handler, in both modes |
| Routes.ApiAlwaysServed | main/http_server/http_server.c:1172-1178 | outside recovery mode every request under /api/ finds a handler, whatever its method |
| Routes.ApiCatchAllMatch | main/http_server/http_server.c:1173 | the API fallback takes exactly the paths under /api/ |
| Routes.RecoveryExplicitMatch | main/http_server/http_server.c:1051 | the explicit recovery route takes only /recovery |
| Routes.BeforeCatchAll | main/http_server/http_server.c:1050-1178 | nothing registered before the GET catch-all takes a GET for another page |
| Routes.ExplicitRecovery | main/http_server/http_server.c:1050-1056 | GET /recovery always gets the recovery page |
| Routes.NormalGet | main/http_server/http_server.c:1180-1186 | outside recovery mode, a GET for any other page goes to the static files |
| Routes.RecoveryGet | main/http_server/http_server.c:1162-1169 | in recovery mode, a GET for any other page gets the recovery page |
| Routes.NoFixedRouteOutsideApi | main/http_server/http_server.c:1050-1160 | no fixed registration takes a request outside /api/ other than /recovery |
| Routes.RecoveryServesNoFiles | main/http_server/http_server.c:1162-1170 | in recovery mode no request reaches the static files or the API fallback |

## Left out

- `inet_addr` is modelled for strict dotted decimal only. lwIP's `inet_addr` also accepts octal, hex and short forms.
- `httpd_req_get_hdr_value_str` is modelled only by its result: an `Origin` of 128 characters or more does not fit the buffer and is treated as absent (`Gate.ReadOrigin`). The truncated copy the call leaves in the buffer is not modelled; the code does not use it.
- The IPv4 peer is taken from the last word of the IPv6 peer address, as the code does. Whether that word is an IPv4-mapped address is not checked, and neither is the code.
- cJSON parsing and printing are not modelled. The parser is a parameter returning a tree, and the unknown-route body is cJSON's printed text as a constant.
- NVS write failures are not modelled. The source ignores their results.
- Flash and OTA failures are modelled as a whole call failing. A failed erase or write is taken to leave the flash unchanged.
- Endless receive timeouts are excluded. The WWW and OTA loops retry `HTTPD_SOCK_ERR_TIMEOUT` with no limit, so a client that stops sending mid-body keeps the httpd task in the loop for ever. The model requires the timeouts to end (`TimeoutsEnd`) and does not capture that stall.
- Settings.PatchBody: for a declared length of 2^31 or more, the model follows the intended unsigned check and answers "content too long" (see Findings). The code's write before the scratch buffer and its parse of stale buffer contents are not modelled.
- Settings.PatchUpdateSettings: inherits the intended length check from `Settings.PatchBody`. For a declared length of 2^31 or more, the code's out-of-bounds write and stale parse are not modelled.
- The theme API (`register_theme_api_endpoints`) is not part of this model. Its registrations are a parameter of the route table.
- Not modelled: the system info, ASIC, statistics, dashboard, Wi-Fi scan and restart handlers, the websocket, the DNS server and `init_fs`. These are outside the modelled core; they appear only as route entries.
- Concurrency is not modelled: handlers run one at a time, as the single-threaded server runs them. The shared scratch buffer and the unsynchronised `GLOBAL_STATE` fields are not modelled as racing.
- The wildcard matcher is modelled only for the templates registered here, exact or ending in '*'. Its '?' suffix is not modelled.
- esp_http_server's refusal of a duplicate (uri, method) pair is not modelled; no two registrations here collide.
- The server's own 405 answer is not modelled. Only the lookup result `MethodNotAllowed` is.
- The 404 error handler is registered for every unmatched path. Its registration itself is not a table entry.
- `readAxeOSVersion` after a web-application update is left out. It only re-reads the version file for display.
- The `vTaskDelay` pauses are left out.
- The response of an update handler is modelled as a function of its outcome (`Update.Answer`). It is not interleaved with the flash and OTA calls.
- `ESP_ERROR_CHECK` aborting the device is modelled as the outcome `Panicked`, with no response.
- `esp_restart` is a logged call. The reboot itself is not modelled.
- Update.ReportProgress: does not state that the status is exactly `Working (p%)` with p = `Percentage(remaining, contentLen)`, only that it is such a text for some byte p. The exact value is `Update.Percentage`; its range is proved by `Update.PercentageInRange`.
- Update.KnownStatusFits: the "Working (p%)" texts are allowed for any byte p, not only 0 to 100. Above about 42 MB the 32-bit product in the percentage wraps (see `Update.Percentage`).
- `CHECK_FILE_EXTENSION` reads before the path when the path is shorter than the extension. The model treats that case as no match.
- StaticFiles.RestCommonGetHandler: requires the path plus ".gz" to fit the 143-byte path buffer (`FitsPathBuffer`). The source's `strcat` has no check, and longer URIs are not modelled.
- StaticFiles.RestCommonGetHandler: the `httpd_resp_set_hdr` calls of the file handler are taken to succeed. The source ignores their results.
- StaticFiles.StreamFile: a read is modelled as returning the next min(10240, rest) bytes or failing. Short reads are not modelled.
- The PATCH handler's 28 guarded writes are modelled as a table of rules applied in order (`Settings.RULES`). Each rule reproduces one `if` of the source with its field name, key and guard.
- In the PATCH receive loop, `httpd_req_recv` itself caps each receive at the rest of the body. The model takes at most the rest of the body from each receive.

## Findings

| source | as written | input that shows it | evidently intended | confidence | as-written member | corrected member |
|---|---|---|---|---|---|---|
| main/http_server/http_server.c:447-465 | `int total_len = req->content_len` turns a declared length of 2^31 or more negative. The `total_len >= SCRATCH_BUFSIZE` check then lets it through, the receive loop does not run, and `buf[total_len] = '\0'` writes before the scratch buffer | a PATCH /api/system with `Content-Length: 2147483648` | compare the unsigned length, refusing it with "content too long" | not executed | Settings.NulIndexAsWrittenOutOfBuffer | Settings.NulIndexInBuffer |
