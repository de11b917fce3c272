# Secure image upload: a verified model of its core

This project models the core of a small image-upload application. It has
three parts: a FastAPI service (`backend/main.py`) and two React
components, the upload widget (`src/components/FileUpload.jsx`) and the
gallery (`src/components/FileList.jsx`).

The model covers these parts of the service:

- the configuration defaults;
- `validate_image_file` and the extension it takes from a file name;
- the stored file name;
- the order of the checks in the upload endpoint;
- the per-user listing, newest first;
- the signing-key lookup of token verification.

It covers these parts of the client:

- the widget's ordered local validation and its state around an upload;
- the single `fileUploaded` event sent after a successful upload;
- the gallery's fetch state and the view picked from that state;
- the gallery's subscription to the `fileUploaded` event while it is mounted;
- the unit selection of `formatFileSize`.

Modules:

- `Wrappers`: `Option` and `Result`.
- `PyStrings`: the Python string operations the service relies on: `split` with a one-character separator, `[-1]`, ASCII `lower()`, `str(n)`, and `.1f` formatting of an exact quotient.
- `Backend`: `backend/main.py`. The pure handlers are functions. The key-finding `for` loop of `verify_token` is a method with a loop.
- `FileSize`: `formatFileSize`, which is the same in both components.
- `Gallery`: `FileList.jsx`. It holds the `FileList` class and the window-level `RefreshChannel` that holds its listeners.
- `Upload`: `FileUpload.jsx`. It holds the `FileUpload` class.
- `Protocol`: the two components mounted together on one channel.

External calls are inputs to the model:

- Blob storage and the database commit are one `StoreOutcome` value.
- The image check is a `bool`.
- `uuid4()` is a string parameter.
- JWT signature checking is a function parameter `decode`.
- The fetched key set is a sequence parameter.
- On the client, the outcome of the token fetch plus the HTTP request is an `UploadOutcome` or a `FetchOutcome` value.

## Model

| member | source | states |
|---|---|---|
| `Backend.LoadConfig` | backend/main.py:28-29 | each setting falls back to its own default when unset: `MAX_FILE_SIZE` is the given value or 5242880; the extension list has at least one entry, no entry holds a comma, and joining it with commas gives the setting (or "jpg,jpeg,png,gif") back, so it is exactly the comma split of that text (the empty setting gives one empty entry) |
| `Backend.DefaultConfig` | backend/main.py:28-29 | with nothing set, the limit is 5242880 and the extensions are exactly jpg, jpeg, png, gif |
| `PyStrings.Split` | backend/main.py:132 | `split` yields at least one piece and no piece holds the separator |
| `PyStrings.JoinSplit` | backend/main.py:29 | joining the pieces of a split with the separator gives back the original string |
| `PyStrings.SplitJoin` | backend/main.py:29 | splitting the join of separator-free pieces gives back the pieces |
| `PyStrings.LastSegmentIsSuffix` | backend/main.py:132 | `split('.')[-1]` is a dot-free suffix of the name that is either the whole name or follows a dot |
| `PyStrings.LastSegmentIff` | backend/main.py:132 | `split(sep)[-1]` is `t` if and only if `t` has no separator and the string is `t` or ends with the separator followed by `t` |
| `PyStrings.LowerLastSegment` | backend/main.py:132 | lower-casing before or after taking the last dot-separated segment gives the same result |
| `PyStrings.RoundedTenths` | backend/main.py:175 | the tenths shown by `.1f` are within half a tenth of the exact quotient, and at an exact tie they are the even neighbour, so the value is the correctly rounded one |
| `PyStrings.NatToString` | backend/main.py:175 | `str(n)` is a non-empty digit string without leading zeros whose decimal value is `n` |
| `PyStrings.FormatOneDecimal` | backend/main.py:175 | `.1f` output is the digits of the whole tenths without leading zeros, a point and one digit, and those digits spell `RoundedTenths(n, d)` |
| `Backend.Extension` | backend/main.py:132 | `split('.')[-1].lower()` never holds a dot and is no longer than the name |
| `Backend.ExtensionIff` | backend/main.py:132-134 | the extension is `e` if and only if `e` has no dot and the lower-cased name is `e` or ends with `.e`; a name without a dot is its own extension |
| `Backend.ValidateImageFile` | backend/main.py:126-136 | a file is valid if and only if its content type is present and starts with `image/`, and for some dot-free entry `e` of the allowed list its lower-cased name is `e` or ends with `.e`; no splitting is involved |
| `Backend.ValidateWithDefaults` | backend/main.py:126-136 | with the default list, a file is valid if and only if its content type is present and starts with `image/`, and its lower-cased name is, or ends in `.` followed by, jpg, jpeg, png or gif; a missing or non-image type rejects whatever the name |
| `Backend.GenerateUniqueFilename` | backend/main.py:138-142 | the stored name is exactly the opaque id, a dot and the lower-cased extension: it starts with the id, ends with `.` plus the extension, and is one character longer than the two together; its extension is the original's |
| `Backend.SizeLimitDetail` | backend/main.py:172-176 | the too-large detail is the fixed text, the limit's whole MiB as digits without leading zeros, a point, one digit, and "MB", where the digits spell the limit in tenths of a MiB rounded as `.1f` rounds it |
| `Backend.DefaultSizeLimitDetail` | backend/main.py:172-176 | with the default limit the too-large detail is "File size exceeds maximum limit of 5.0MB" |
| `Backend.QuarterMebibyteSizeLimitDetail` | backend/main.py:172-176 | a limit of 262144 bytes, exactly 0.25 MiB, is shown as "0.2MB": the tie goes to the even tenth |
| `Backend.UploadFile` | backend/main.py:152-231 | the type check comes before the size check; a file larger than the limit gets 400 with the size detail, and one of exactly the limit passes; a file that passes both but fails the image check gets 400 "Invalid image file"; success happens if and only if the type, size and image checks pass and storage succeeds; a storage failure after all three checks is 500 "Failed to upload file: " with the storage reason, and every failure that is not a 400 is that one; a stored record carries the caller's `sub`, the byte length read, the original name and type, the generated stored name (which keeps the extension), and the id, URL and time storage returned |
| `Backend.FilterByUser` | backend/main.py:240-241 | only records whose `user_id` is the caller's `sub`, each as many times as it occurs in the table |
| `Backend.InsertNewestFirst` | backend/main.py:242 | inserting into a newest-first list keeps it newest first and adds exactly the one record |
| `Backend.SortNewestFirst` | backend/main.py:242 | the result is newest first and is a permutation of the input |
| `Backend.ListingContents` | backend/main.py:240-242 | the sorted listing has one entry per record of the caller, and holds exactly the caller's records |
| `Backend.ListingViews` | backend/main.py:244-254 | the entries of a newest-first listing are newest first, include every record of the caller, and each comes from a record of the caller |
| `Backend.FirstKeyWithKid` | backend/main.py:94-104 | a key it finds belongs to the key set and carries the requested `kid` |
| `Backend.GetUserFiles` | backend/main.py:233-254 | one entry per record of the caller, newest first; every record of the caller is listed and every listed entry comes from a record of the caller |
| `Backend.StoredRecordIsListed` | backend/main.py:240-254 | a record added to the table appears in its owner's listing |
| `Backend.UploadIsListed` | backend/main.py:206-217 | the record of a successful upload appears in the uploader's next listing |
| `Backend.FirstKeyWithKidIsFirstMatch` | backend/main.py:94-104 | the lookup finds a key if and only if some key has the header's `kid`, and the key found is at the first position with that `kid` |
| `Backend.FindSigningKey` | backend/main.py:94-104 | the loop returns the first key whose `kid` matches, or no key when none matches or the set is empty; a header without `kid` fails only when the key set is not empty |
| `Backend.VerifyToken` | backend/main.py:82-124 | a malformed token gives 401 "Invalid token"; an empty key set, or no key with the header's `kid`, gives 401 "Unable to find appropriate key"; a header without `kid` gives 500 when the key set is not empty; otherwise the result is what decoding with the first matching key gives, and a decode failure is 401 "Invalid token" |
| `FileSize.UnitIndex` | src/components/FileUpload.jsx:91-97 | for a size of at least 1 byte, the unit index `i` satisfies 1024^i <= bytes < 1024^(i+1) |
| `FileSize.UnitIndexUnique` | src/components/FileList.jsx:47-53 | that index is the only exponent whose power band holds the size |
| `FileSize.FormatFileSize` | src/components/FileList.jsx:47-53 | as written: the literal text exactly for zero bytes; otherwise the divisor is 1024^i for the unit index i, so the exact quotient bytes / divisor lies in [1, 1024), and the unit comes from the table if and only if the size is below 1024^4 (above that it is `undefined`) |
| `FileSize.FormatFileSizeZero` | src/components/FileUpload.jsx:92 | zero bytes is the literal "0 Bytes" |
| `FileSize.FormatFileSizeBelowTebibyte` | src/components/FileList.jsx:47-53 | for 1 <= bytes < 1024^4 the divisor is 1024^i with divisor <= bytes < 1024 * divisor, and the unit is `sizes[i]` with i < 4 |
| `FileSize.FormatFileSizeOneMebibyte` | src/components/FileList.jsx:47-53 | 1048576 bytes is shown as divisor 1048576 with unit MB, which is 1 MB |
| `FileSize.FormatFileSizeTebibyte` | src/components/FileList.jsx:49-52 | as written, 1024^4 bytes gets the unit `undefined` |
| `FileSize.FormatFileSizeClamped` | src/components/FileList.jsx:47-53 | with the index clamped, the unit is always in the table; below 1024^4 bytes this agrees with the code as written, and from 1024^3 bytes up the unit is GB |
| `Upload.Validate` | src/components/FileUpload.jsx:16-28 | a type outside {image/jpeg, image/jpg, image/png, image/gif} gives the invalid-type message, even when the size is also too large; for an allowed type, the too-large message appears if and only if size > 5·1024·1024; a file passes if and only if its type is allowed and its size is at most 5242880 |
| `Upload.FailureMessage` | src/components/FileUpload.jsx:57-60 | the message is the server's `detail` when that is present and not empty, otherwise the generic message; it is never empty |
| `Upload.SuccessMessage` | src/components/FileUpload.jsx:46 | the success message quotes the file's name |
| `Upload.FileUpload.constructor` | src/components/FileUpload.jsx:7-11 | not uploading, no error, no success message, no attempts |
| `Upload.FileUpload.HandleFileSelect` | src/components/FileUpload.jsx:13-32 | no file: nothing changes and no upload starts; a failed check sets only `uploadError`, leaving `uploading` and any earlier success message as they were; otherwise `uploading` becomes true, both messages are cleared and the file is submitted |
| `Upload.FileUpload.FinishUpload` | src/components/FileUpload.jsx:34-63 | for a file that was submitted: on success, the message names the file, the input value is cleared when the ref is attached, exactly one event is dispatched, and each subscribed gallery starts one fetch; on failure, the error is `FailureMessage(detail)`, no event is dispatched and no gallery changes; `uploading` is false either way |
| `Upload.FileUpload.HandleFileInputChange` | src/components/FileUpload.jsx:66-69 | while uploading the input is disabled (line 116), and an empty file list gives no file: in both cases nothing changes; otherwise the first file is handled as `HandleFileSelect` handles it: a failed check sets only `uploadError` to its message, and a passing file sets `uploading`, clears both messages and is submitted; the input value is never changed here |
| `Upload.FileUpload.HandleDrop` | src/components/FileUpload.jsx:81-89 | an empty drop does nothing; otherwise the first file is handled as `HandleFileSelect` handles it, whether or not an upload is in progress: a failed check sets only `uploadError` to its message, and a passing file sets `uploading`, clears both messages and is submitted; the input value is never changed here |
| `Gallery.SelectView` | src/components/FileList.jsx:63-127 | exactly one view, by priority: loading, then the error with its message, then the empty state for an empty list, then the grid of the list |
| `Gallery.FileList.CurrentView` | src/components/FileList.jsx:63-127 | the component renders the loading view exactly while loading, the error view exactly when loaded with an error, and the grid of its own list exactly when loaded without error and the list is not empty |
| `Gallery.Without` | src/components/FileList.jsx:43 | removing a listener keeps every other listener, drops that one, and keeps the list free of duplicates |
| `Gallery.RefreshChannel.Subscribe` | src/components/FileList.jsx:40 | `addEventListener` adds the listener once; a listener already present is not added again |
| `Gallery.RefreshChannel.Unsubscribe` | src/components/FileList.jsx:43 | `removeEventListener` removes that listener and keeps the others in order |
| `Gallery.RefreshChannel.Dispatch` | src/components/FileList.jsx:36-38 | one dispatched event makes every subscribed gallery start exactly one fetch; the listener list is unchanged |
| `Gallery.FileList.constructor` | src/components/FileList.jsx:7-9 | empty list, loading, no error |
| `Gallery.FileList.FetchFiles` | src/components/FileList.jsx:11-14 | `loading` becomes true and `error` null; the list is kept; the view is the loading view |
| `Gallery.FileList.CompleteFetch` | src/components/FileList.jsx:15-29 | success replaces `files` wholesale and leaves `error` as it was; failure sets the fixed message and keeps `files`; `loading` is false after either; an unmounted component does not change |
| `Gallery.FileList.Retry` | src/components/FileList.jsx:79 | the error view's button runs the same fetch again |
| `Gallery.FileList.Mount` | src/components/FileList.jsx:32-40 | mounting starts one fetch and adds one listener |
| `Gallery.FileList.Unmount` | src/components/FileList.jsx:42-44 | teardown removes this gallery's listener and changes nothing else |
| `Protocol.UploadRefreshesGallery` | src/components/FileList.jsx:32-45 | with a mounted gallery, a valid file whose upload succeeds causes exactly one further fetch, and a fetch that returns a listing including the new record shows a grid containing it |

## Findings

| source | as written | input that shows it | evidently intended | confidence | as-written member | corrected member |
|---|---|---|---|---|---|---|
| src/components/FileList.jsx:49-52 | the unit index indexes the four-entry `sizes` table with no clamp | 1024^4 bytes (1 TiB) gives the unit `undefined`, so the label reads "1 undefined" | the index clamped to the last unit of the table, so that every size from 1024^3 bytes up is shown in GB | not executed; low impact, because the service caps uploads at 5 MiB by default and a larger size only appears with a raised `MAX_FILE_SIZE` | `FileSize.FormatFileSize` (shown by `FileSize.FormatFileSizeTebibyte`) | `FileSize.FormatFileSizeClamped` |

## Behaviour worth noting

- `formatFileSize` does not clamp its unit index; see Findings.
- Only the file input is disabled while an upload is in progress (`FileUpload.jsx:116`). A drop still goes through `handleFileSelect`, so `HandleDrop` has no guard, and a second upload can start while one is in progress.
- On a failed load the gallery keeps `files` and only sets `error`; the error view hides the list. `CompleteFetch` keeps `files`.
- `formatFileSize` rounds the quotient with `toFixed(2)` after choosing the unit, so a size just below a unit boundary shows as 1024 of the smaller unit: 1048575 bytes is 1023.999… KB and displays as "1024 KB".
- `formatFileSize` is defined in `FileUpload.jsx` but never called there; only the gallery uses it.

## Left out

- Network, token provider and storage: the JWKS HTTP fetch, the Auth0 token fetch, axios and its logging interceptor, Azure Blob upload, the SQLAlchemy session, PIL `verify()` and `uuid4()` are foreign calls. Each enters the model as an outcome value or a parameter.
- JWT decoding itself is the `decode` parameter of `VerifyToken`. A failure fetching the key set is not modelled.
- `Backend.VerifyToken`: a missing `kid` field inside a JWKS key, and a missing `sub` claim, would raise `KeyError`; the model's `Jwk` and `Claims` always have those fields.
- `Backend.LoadConfig`: `int()` parsing of `MAX_FILE_SIZE` is left out. The setting arrives already parsed, and negative values are not modelled.
- `PyStrings.RoundedTenths`: `.1f` rounding is modelled for exact quotients, which is every limit below 2^53 bytes. Float conversion of larger limits is not modelled.
- `Backend.SizeLimitDetail`: the same holds for the detail built on `PyStrings.RoundedTenths`: a limit of 2^53 bytes or more is not modelled as the float Python would format.
- `PyStrings.Lower`: models ASCII lower-casing only. Python lower-cases every Unicode letter.
- `Backend.SortNewestFirst`: SQL leaves the order of equal `uploaded_at` values unspecified. The model holds one fixed order, and only newest-first plus permutation is proved about it.
- `uploaded_at` is an integer timestamp. Its ISO-8601 rendering and `formatDate`'s locale formatting are left out.
- The upload response body, `{id, filename, url, size, uploaded_at}`, is not modelled beyond the stored record it echoes.
- `FileSize.FormatFileSize`: the shown number (the float `toFixed(2)` and `parseFloat`) is left out; only the divisor and the unit are modelled, and the contract bounds the exact quotient, not the rounded number shown (1048575 bytes shows as "1024 KB"). The float `Math.log` quotient is taken to be the exact integer logarithm. At exact powers of 1024, float rounding could differ.
- `Upload.FailureMessage`: a `detail` that is not a string, such as FastAPI's list of validation errors, is not modelled.
- Concurrency: overlapping fetches (the last response wins), overlapping uploads started by drops, and React's batching of state updates are not modelled. Each async handler is split at its first `await` into a start method and a completion method.
- UI only: drag-over highlighting, JSX markup, image `onError` hiding, and the login and logout buttons.
- The root and health endpoints and CORS set-up carry no logic.
