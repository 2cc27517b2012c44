# Secure photo backup and story viewer: a Dafny model

This project models the decision logic in the browser scripts of Maria
Ruoro's website. Four scripts are covered:

- **File-encryption envelope** (`js/encryption.js`, module `Encryption`).
  - `encryptFile` seals a file under a fresh AES-256-GCM key and a 12-byte IV.
  - With an additional password, it also wraps the raw key. The wrapping key comes from PBKDF2-HMAC-SHA-256 (RFC 8018, section 5.2; 100 000 iterations; 16-byte salt), and the wrap uses a second IV.
  - The batch driver `handleEncryptAndUpload` stops early when the password is missing, reports progress per file, and gives up at the first error.
  - Web Crypto is a `Platform` value holding two functions: AES-GCM encryption and PBKDF2 derivation. `None` stands for a rejected promise.
  - Every random value, the generated key included, is read from an entropy stream in the order the script draws it.
- **CSRF and login helpers** (`js/security.js`, module `Security`).
  - Tokens are built over a 62-character alphabet.
  - `getCookie` reads a value out of the cookie header string.
  - The double-submit form check compares the form's token with the cookie's.
  - A login is fresh for less than 24 hours.
- **Backup dashboard** (`js/backup.js`, module `Backup`).
  - Class `BackupDashboard` holds the current folder and the list of files chosen for upload.
  - Also modelled: the checks made before an upload is sent, thumbnail sizing, the icon chosen from a MIME type, and the byte copy of `dataURLToBlob`.
- **Story viewer** (`js/instagram.js`, module `Stories`).
  - Class `StoryViewer` holds the index on screen, one progress bar per story, the pending auto-advance timer, and whether the viewer and its key listener are still live.

The JavaScript built-ins these scripts lean on are defined in module `JsBuiltins`. Each follows ECMAScript:

- the truthiness test `if (x)` on a string that may be `null` or `undefined`;
- `Math.round` of a ratio, rounding halves up;
- `startsWith`, and `indexOf` with its `=== 0` test;
- `trim`, with the ECMAScript whitespace set;
- `split` on one character;
- `parseInt` with no radix argument;
- the decimal `toString` of a natural number.

## Model

| member | source | states |
|---|---|---|
| Wrappers.Truthy | js/security.js:296 | A string that may be missing is truthy exactly when it is present and not empty. The same test appears at js/encryption.js:283 and 379, js/security.js:158, and js/backup.js:162, 739 and 748. |
| JsBuiltins.StartsWith | js/backup.js:209-216 | `startsWith` holds only when the text is the prefix followed by the rest; otherwise the text is shorter or differs from the prefix at some position. The same test is at js/backup.js:570. |
| JsBuiltins.IndexOf | js/security.js:88 | `indexOf` gives a position where the text occurs, and no earlier position from the start has it; -1 means it occurs nowhere. |
| JsBuiltins.IndexOfZero | js/security.js:88 | `indexOf(t) === 0` is the same test as `startsWith(t)`. |
| JsBuiltins.RoundHalfUp | js/encryption.js:305 | `Math.round(num / den)` is the integer nearest the ratio; a half rounds up. |
| JsBuiltins.RoundHalfUpMonotone | js/encryption.js:305 | Rounding never decreases when the numerator grows. |
| JsBuiltins.RoundHalfUpExact | js/encryption.js:305 | A whole ratio rounds to itself. |
| JsBuiltins.TrimStart | js/security.js:87 | The result is a suffix of the input, everything dropped is whitespace, and it does not start with whitespace. |
| JsBuiltins.TrimEnd | js/security.js:87 | The result is a prefix of the input, everything dropped is whitespace, and it does not end with whitespace. |
| JsBuiltins.Trim | js/security.js:87 | `trim` leaves no whitespace at either end. |
| JsBuiltins.TrimUnpadded | js/security.js:87 | A string whose ends are not whitespace is left unchanged by `trim`. |
| JsBuiltins.TrimLeadingSpace | js/security.js:87 | A leading space is removed by `trim`. |
| JsBuiltins.Split | js/security.js:84 | `split` on one character gives at least one piece, and no piece holds the separator. |
| JsBuiltins.JoinSplit | js/security.js:84 | Joining the pieces of a split with the separator gives back the input, so together with `Split`'s contract the pieces are uniquely determined. |
| JsBuiltins.SplitFreePrefix | js/security.js:84 | A separator-free prefix only extends the first piece of the split. |
| JsBuiltins.SplitJoin | js/security.js:84 | `split` undoes `join` when no piece holds the separator. |
| JsBuiltins.NatToString | js/security.js:284 | `Date.now().toString()` is a non-empty run of decimal digits with no leading zero. |
| JsBuiltins.ParseInt | js/security.js:298 | `parseInt` of a blank string is `NaN` (None), and a negative result needs a `-` as the first non-whitespace character. |
| JsBuiltins.ParseIntSkipsWhitespace | js/security.js:298 | A leading whitespace character does not change what `parseInt` reads. |
| JsBuiltins.ParseIntNegative | js/security.js:298 | A `-` in front negates the number that follows, and keeps `NaN` as `NaN`. |
| JsBuiltins.ParseIntHex | js/security.js:298 | With no radix argument, `0x` or `0X` followed by hexadecimal digits is read in radix 16. |
| JsBuiltins.ParseIntOfNatToString | js/security.js:284-298 | `parseInt` of the stored timestamp gives back the number that was written. |
| Encryption.ConfigIsStandard | js/encryption.js:9-16 | The configuration is AES-GCM with a 256-bit key, 12-byte IV, 16-byte salt, 100 000 iterations and 128-bit tag. This is a NIST SP 800-38D / SP 800-132 parameter set. |
| Encryption.GenerateEncryptionKey | js/encryption.js:432-441 | The generated key is 256 bits long. Generation fails exactly when the randomness runs out. |
| Encryption.DeriveKeyFromPassword | js/encryption.js:449-478 | The wrapping key depends only on the password and the salt (no randomness), with PBKDF2, SHA-256 and 100 000 iterations fixed. On a platform that derives keys of the requested length, it is a 256-bit AES key. |
| Encryption.EncryptFile | js/encryption.js:353-426 | Any failure is the single error "Failed to encrypt file", with no envelope. See the list after this table. |
| Encryption.FalsyPasswordsAgree | js/encryption.js:376-379 | `null`, `undefined` and `""` all give the same unprotected envelope; only truthiness matters. |
| Encryption.PasswordOnlyAffectsKeyMaterial | js/encryption.js:359-420 | With the same randomness, the protected and unprotected forms share the ciphertext and the file IV. |
| Encryption.ProtectedWrapsRawKey | js/encryption.js:373-401 | The protected form wraps exactly the raw key that the unprotected form stores. |
| Encryption.DrawsAreSeparate | js/encryption.js:356-387 | For a successful `encryptFile`, the randomness it reads is exactly the key, then the envelope's file IV, then (when the key is protected) its salt and key IV, back to back. So the four are separate draws, and no byte is skipped. Without a password, that is the stored raw key followed by the IV. |
| Encryption.ProgressBounds | js/encryption.js:305 | Progress `round((i+1)/n*100)` stays within 0..100 and never decreases. It reaches exactly 100 on the last file. |
| Encryption.FilesDrawSeparately | js/encryption.js:292-308 | Two successful files i < j of a batch each read one window of the randomness, at i·need and j·need, holding their own key, IV, salt and key IV. The windows do not overlap. |
| Encryption.HandleEncryptAndUpload | js/encryption.js:270-331 | No files means nothing happens. A checked box with an empty password stops before any file is read. See the list after this table. |
| Security.CharsetIsAlphanumerics | js/security.js:44 | The token alphabet has 62 characters, all letters or digits, and every ASCII letter and digit is in it. |
| Security.GenerateCsrfToken | js/security.js:43-62 | The token has exactly `length` characters (32 by default). Character i is `charset[values[i] % 62]`, so every character is a letter or digit. |
| Security.SetAuthenticationToken | js/security.js:275-285 | The auth token has 64 alphanumeric characters. The stored timestamp parses back to the login time. |
| Security.GetCookie | js/security.js:82-94 | The loop returns what `CookieValue` describes: the rest of the first trimmed `;`-piece that starts with `name=`, or `null` if none does. |
| Security.GetCookieFindsFirstPair | js/security.js:82-94 | On a header `k1=v1; k2=v2; ...`, `getCookie(k)` returns the value of the first pair whose key is `k`, or `null` if there is none. Keys are free of `;` and `=` and do not start with whitespace; values are free of `;` and do not end with whitespace. |
| Security.IssuedCookieFound | js/security.js:277-292 | A generated token stored under a cookie name is what `getCookie` reads back, provided no earlier cookie has that name. |
| Security.SubmissionAllowed | js/security.js:152-163 | A submission is let through exactly when the form's token is present and non-empty and the CSRF cookie holds that same token. Otherwise it is blocked, which covers a missing or empty token on either side and a mismatch. |
| Security.CsrfCheckAcceptsOnlyIssuedToken | js/security.js:152-163 | With the CSRF cookie set to an issued token, the form check lets a submission through exactly when the form carries that same token. |
| Security.Authenticated | js/security.js:291-310 | Authenticated requires a non-empty `auth_token` cookie and a non-empty stored timestamp. A timestamp `parseInt` reads as `NaN` never passes. Otherwise the user is authenticated exactly when the age is below 86 400 000 ms. |
| Security.LoginFreshFor24Hours | js/security.js:291-310 | After a login at time t, the user is authenticated at time `now` exactly when `now - t < 86 400 000`. An age of exactly 24 hours is rejected. |
| Security.NoLoginNoAccess | js/security.js:292-296 | With no auth cookie or no stored timestamp, nobody is authenticated. |
| Backup.BreadcrumbFolder | js/backup.js:344 | The crumb text `null` means the root folder; any other text is that folder's id. |
| Backup.BreadcrumbRoundTrip | js/backup.js:324-344 | Clicking the crumb rendered for a folder asks for that folder, including Home (`null`). |
| Backup.BackupDashboard.constructor | js/backup.js:23-25 | The dashboard starts at the root folder with nothing selected. |
| Backup.BackupDashboard.LoadUserFiles | js/backup.js:157-167 | A truthy folder id becomes the current folder; anything else means the root. The selection is untouched, and the current folder is never the empty string. |
| Backup.BackupDashboard.ClickBreadcrumb | js/backup.js:342-346 | A crumb click moves to the crumb's folder; `null` and an empty id mean the root. |
| Backup.BackupDashboard.AddFiles | js/backup.js:866-900 | Dropped or picked files are appended to the selection in the order given. |
| Backup.BackupDashboard.RemoveAt | js/backup.js:695-701 | `splice(index, 1)` removes exactly the entry at that position and keeps the others in order. A negative index counts from the end; an index past the end changes nothing. |
| Backup.BackupDashboard.OpenUploadModal | js/backup.js:556-564 | Opening the modal empties the selection. |
| Backup.BackupDashboard.PrepareUpload | js/backup.js:705-757 | A request is built exactly when files are selected and, if encryption is ticked, the password is non-empty. The two refusals carry their messages. A request holds every selected file, the current folder (`null` at the root), and the encryption flag. |
| Backup.ThumbnailSize | js/backup.js:584-599 | The size follows the thumbnail rule `IsThumbnail`. Both sides are at most 200, and an image within 200x200 keeps its size. Otherwise the longer side (the height on a tie) becomes exactly 200, and the other side is scaled by 200/longer, rounded half up. |
| Backup.ThumbnailUnique | js/backup.js:584-599 | The thumbnail rule allows exactly one size for each image. |
| Backup.ExtractImageMetadata | js/backup.js:567-632 | A file that is not `image/...`, or an image that cannot be decoded, gives `null`. Otherwise the metadata reports the original size and the thumbnail size given by the thumbnail rule, so a 100x50 image gets a 100x50 thumbnail. |
| Backup.FileIcon | js/backup.js:209-217 | `fa-image`, `fa-video` and `fa-music` are chosen exactly for `image/`, `video/` and `audio/` types; every other type gets `fa-file`. |
| Backup.PrefixesExclusive | js/backup.js:210-217 | No type matches two of the media prefixes, so the order of the tests cannot change the outcome. |
| Backup.DecodedToBytes | js/backup.js:839-851 | The byte array is as long as the decoded string. Byte i is the char code of character i, reduced mod 256. |
| Stories.NormalizeIndex | js/instagram.js:288-292 | The index `showStory` settles on is always a valid story index. An index in range is kept; below 0 becomes the last story; past the end becomes the first. |
| Stories.WrapAround | js/instagram.js:337-343 | Prev from the first story shows the last; next from the last shows the first. |
| Stories.PrevNextInverse | js/instagram.js:337-343 | Prev undoes next and next undoes prev, from any story. |
| Stories.Advance | js/instagram.js:320-322 | The story shown after k auto-advances is a valid index. |
| Stories.AdvanceCounts | js/instagram.js:320-322 | Before the end is reached, each auto-advance moves exactly one story on. |
| Stories.AdvanceAdds | js/instagram.js:320-322 | Advancing a times and then b times equals advancing a+b times. |
| Stories.AdvanceCycles | js/instagram.js:320-322 | Left alone, the viewer wraps from the last story to the first and is back where it started after n advances. |
| Stories.StoryViewer.Open | js/instagram.js:233-356 | The viewer starts at `startIndex` (0 by default), wrapped into range. Earlier bars are full, the current one animates, later ones are empty. One timer is pending and the key listener is registered. |
| Stories.StoryViewer.ShowStory | js/instagram.js:282-323 | See the list after this table. |
| Stories.StoryViewer.Next | js/instagram.js:341-343 | The next button shows the following story, wrapping from the last to the first. While the viewer is in the page, the bars are reset for the new story as `ShowStory` describes; otherwise they are unchanged. |
| Stories.StoryViewer.Prev | js/instagram.js:337-339 | The prev button shows the preceding story, wrapping from the first to the last. The bars follow as for `Next`. |
| Stories.StoryViewer.TimerFires | js/instagram.js:320-322 | The firing timer shows the next story under the same wrap rule and schedules its successor. The bars follow as for `Next`. |
| Stories.StoryViewer.Close | js/instagram.js:329-335 | Closing clears the pending timer and takes the viewer out of the page. The index and the key listener are untouched. |
| Stories.StoryViewer.KeyDown | js/instagram.js:346-355 | Escape closes the viewer and always unregisters the listener, even when the viewer was already closed with the × button. ArrowLeft is prev and ArrowRight is next, with the bars reset while the viewer is in the page. Any other key, and any key reaching an unregistered listener, changes nothing, bars included. |

`Encryption.EncryptFile` also guarantees, on success:

- the file is sealed under the fresh key with the returned 12-byte IV;
- without a truthy password, the envelope carries the raw key and no key IV or salt;
- with a truthy password, the envelope is marked protected and carries a 12-byte key IV and a 16-byte salt. The raw key is sealed under the key derived from the password and that salt, with that IV.

It fails exactly when one of these steps fails: randomness, file encryption, derivation, or key wrapping.

`Encryption.HandleEncryptAndUpload`, once past the password check:

- uploads files in order, each with its own `encryptFile` envelope;
- records progress `round((i+1)/n*100)` after the file at 0-based position i;
- ends Completed with every file, or Aborted at the first file whose read or encryption failed, with nothing after it touched.

`Stories.StoryViewer.ShowStory`:

- clears the timer, then wraps the index into range;
- when the viewer is in the page, sets the bars: those before the index to full, the current one to full with the 5-second transition, later ones to empty with no transition;
- schedules exactly one new timer.

## Left out

- Decryption: the scripts have no decrypt path, so none is modelled. The `isEncrypted` flag of the dashboard upload is sent as a flag only; the scripts never encrypt on that path.
- The internals of AES-GCM, PBKDF2, `generateKey`, `exportKey` and `TextEncoder`. They are opaque functions of the `Platform` value, so the UTF-8 encoding of the password is folded into the derivation function.
- The `Math.random` fallback of `generateCSRFToken`. Only the `crypto.getRandomValues` branch is modelled, with the random words as a parameter.
- Writing cookies (`setCookie`), `localStorage`, the clock (`Date.now`), `fetch`/XHR, `simulateUpload` and `readFileAsArrayBuffer`. Their inputs and outcomes are parameters.
- All DOM rendering, alerts, modals, CSS classes, the page scroll lock and the story content markup.
- `FileReader`, `Image`, canvas, `toDataURL` and `atob`. `ExtractImageMetadata` takes the decoded image size (or its failure) as a parameter. The thumbnail's data URL and `aspectRatio` are not produced.
- `DecodedToBytes` starts from the string `atob` returns. Splitting the data URL and the blob's content type are not modelled.
- The metadata and thumbnail parts of the upload `FormData`, and the upload progress events.
- `formatBytes`, and every other floating-point formatting.
- `JsBuiltins.RoundHalfUp`: it rounds the exact ratio, while the scripts round a floating-point quotient. Progress and the scaled thumbnail side could differ by one where the quotient lands within rounding error of a half.
- `Stories.StoryViewer.Open`: requires a non-empty story list. With no stories, the first `showStory` throws a TypeError on `stories[0]`, after the viewer was added to the page.
- `Backup.BackupDashboard.RemoveAt`: takes an integer. A non-numeric `data-index` would make `parseInt` give `NaN`, which `splice` treats as 0; the rendered buttons always carry an index.
- Strings: JavaScript strings are sequences of UTF-16 code units, while the model's strings are sequences of Unicode scalar values. `trim`, `split`, `startsWith`, slicing and `charCodeAt` agree with the scripts on well-formed text only. A lone surrogate cannot be represented, and a character outside the Basic Multilingual Plane counts as one character here but two code units in the scripts.
- `JsBuiltins.ParseInt`: the result is an exact integer. JavaScript's `parseInt` returns a double, which loses precision above 2^53. A stored timestamp is far below that bound.
- Timers are a pending flag; the five-second delay and real time are not modelled.
- `Stories.StoryViewer.Close`: when the viewer has already left the page, `removeChild` throws after the timer is cleared. The model keeps the state that results and does not model the exception itself. Event dispatch reports the exception without passing it on to the `click()` caller, so `KeyDown` goes on to unregister the listener.
- `Stories.StoryViewer.ShowStory`: `querySelectorAll` searches the whole document. The model updates this viewer's bars only while it is in the page, and assumes no second viewer is open.
