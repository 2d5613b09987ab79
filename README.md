# Image-album service: a verified model of its request logic

The service keeps photos in a fixed set of albums (`me`, `parents`,
`brother`, `family`), one directory per album under an image root. It
answers four requests: list an album, upload a file into it, delete one
file from it, and delete everything in it. Every request first passes an
allow-list check on the album name.

This project models that logic with the filesystem abstracted:

- `Gallery.AlbumStore` is the image root. Its field `dirs` maps each
  directory name to its listing, the entry names in the order the
  directory reads them back.
- Two failure oracles, also fields, decide the error branches:
  - `unreadable`: the directories whose listing fails;
  - `stuck`: the (directory, name) pairs whose unlinking fails with an
    error other than "no such entry", listed or not (a name too long for
    the filesystem fails this way even though nothing by that name exists).
- The names `""`, `.` and `..` denote a directory, never a file. Unlinking
  them always fails with such an error, so the delete handler answers 500
  for them, not 404.
- Responses are a datatype (`Gallery.Response`). `Gallery.Status` gives the
  HTTP status of each one, and `Gallery.Message` gives the exact error text.

Modules:

- `Wrappers`: an `Option` type.
- `Paths`: POSIX `path.basename` without a suffix argument.
- `Listing`: directory listings. A listing never names an entry twice; the
  module defines unlinking one entry (`Remove`) and writing one file (`Put`).
- `Gallery`: the allow-list, URLs, the store and its four handlers, and the
  failure report of the bulk delete.

The store's invariant `Valid` holds in every state: every album has a
directory, and no listing repeats a name. Startup establishes it, and every
handler keeps it.

## Model

| member | source | states |
|---|---|---|
| Gallery.ValidateCategory | app.js:40-46 | A request passes exactly when its album is one of the configured albums. Any other album is answered with the 400 "Invalid album category" response. |
| Gallery.AlbumStore.Start | app.js:12-19 | After startup every configured album has a directory. Existing directories keep their listings. A newly created album directory is empty. No other directory appears. |
| Gallery.AlbumStore.List | app.js:49-61 | An unknown album gets the 400 rejection. An unreadable directory gets the 500 "Unable to list files". Otherwise the response has exactly one URL per entry, in listing order, and each URL reads back to the entry at the same position. |
| Gallery.Urls | app.js:58 | The URL list has the length of the listing. The URL at each position reads back to the entry at that position. |
| Gallery.Url | app.js:58 | The URL template `/images/{album}/{name}`, shared by list, upload and delete: the entry name can always be read back from the URL. |
| Gallery.Status | app.js:43-119 | 400 exactly for the invalid-album and no-file rejections, 404 exactly for a missing file, 500 exactly for a listing failure, an unlink failure or a partial bulk delete, and 200 exactly for every success answer. |
| Gallery.MessageInjective | app.js:43-89 | The error texts of the handlers are pairwise different, so each names its error. |
| Gallery.UrlInjective | app.js:58 | Within one album, different entries get different URLs. |
| Gallery.ListedIff | app.js:58 | An album's URL list contains the URL of a name exactly when the listing contains that name. |
| Gallery.AlbumStore.Upload | app.js:63-73 | An unknown album gets the 400 rejection, and a missing file gets the 400 "No file uploaded". In both cases nothing changes. Otherwise the album's listing gains the original file name verbatim (overwriting a same-named entry in place), the response URL is built from that raw name, and no other directory changes. |
| Listing.Put | app.js:33 | After writing a file, the listing holds exactly its old names plus the written one. Writing an existing name leaves the listing as it was. |
| Listing.PutDistinct | app.js:33 | Writing a file never makes a listing repeat a name. |
| Gallery.UploadThenListed | app.js:33 | After an upload, listing the album shows the URL of the uploaded name. |
| Gallery.TraversalAsymmetry | app.js:81 | Should the multipart layer deliver the name `../secret`, upload records it verbatim, while delete cuts the same name down to `secret`. In an album with no entry `secret`, delete therefore looks for an entry that is not there. |
| Paths.Basename | app.js:81 | The sanitised name never contains a separator and is never longer than the input. |
| Paths.TrimTrailingSplit | app.js:81 | Trimming removes separators only: the path is its trimmed part followed by separators. |
| Paths.BasenameIsFinalComponent | app.js:81 | Split a path into a prefix that is empty or ends in a separator, then a non-empty separator-free component, then only separators. The basename is that component. |
| Paths.BasenameEmpty | app.js:81 | The basename is empty exactly when the path consists of separators only. |
| Paths.BasenameOfName | app.js:81 | A name without separators is its own basename. |
| Paths.BasenameIdempotent | app.js:81 | Sanitising twice is the same as sanitising once. |
| Paths.BasenameDropsTraversal | app.js:81 | `../secret` is reduced to `secret`. |
| Paths.BasenameDropsTrailing | app.js:81 | `a/b//` is reduced to `b`. |
| Paths.BasenameOfDots | app.js:81 | `..` and `.` come through unchanged, and `/` becomes the empty name. |
| Gallery.AlbumStore.UnlinkOutcome | app.js:84-90 | Unlinking fails with an error other than "no such entry" exactly when the name denotes a directory or the failure oracle says so, whether or not the name is listed. Otherwise it reports "no such entry" exactly when the name is not listed, and success exactly when it is. |
| Gallery.AlbumStore.Unlink | app.js:84 | The outcome is the one the store's state predicts. Only on success, the entry leaves its directory. Nothing else changes. |
| Listing.Remove | app.js:84 | After unlinking, the listing holds every other name and not the unlinked one. |
| Listing.RemoveSplit | app.js:84 | Unlinking a name that occurs once cuts exactly that entry out and keeps the order of the rest. |
| Listing.RemoveCount | app.js:84 | Unlinking a listed name shortens a listing without repeats by exactly one. |
| Listing.RemoveDistinct | app.js:84 | Unlinking never makes a listing repeat a name. |
| Gallery.DeleteThenUnlisted | app.js:84 | After an entry is unlinked, listing the album no longer shows its URL. |
| Gallery.AlbumStore.DeleteOne | app.js:77-93 | An unknown album gets the 400 rejection and nothing changes. Otherwise only the separator-free basename of the requested name is unlinked, and only in the album's own directory. On success the entry is gone, the listing is one shorter, no other entry or directory changes, and the response URL uses the sanitised name. A name that fails with an error other than "no such entry" (a directory name, or one the failure oracle names, listed or not) gets 500 "Unable to delete file" and nothing changes. Any other unlisted name gets 404 "File not found" and nothing changes. |
| Listing.DistinctAt | app.js:53 | Two positions of a listing without repeats hold different names. |
| Listing.DistinctFromPairs | app.js:53 | A listing whose positions all hold different names has no repeats. |
| Gallery.Leftover | app.js:107-114 | The failure report holds exactly the listed names whose unlinking fails, and it is no longer than the listing. |
| Gallery.LeftoverAppend | app.js:107-114 | The report for a listing is the report for its first part followed by the report for the rest, so the report keeps listing order. |
| Gallery.LeftoverDistinct | app.js:112 | The report never names an entry twice. |
| Gallery.DeleteAllStep | app.js:108-113 | One step of the pass: the next entry is still listed. Unlinking it cuts exactly it out, and the report grows by it exactly when it fails. |
| Gallery.AlbumStore.UnlinkEach | app.js:107-114 | The serial pass unlinks every listed entry in order and carries on past failures. The names it collects are exactly the report, in listing order. Afterwards the directory lists exactly those names and no other directory changes. |
| Gallery.AlbumStore.DeleteAll | app.js:96-123 | An unknown album gets the 400 rejection. An unreadable directory gets the 500 "Unable to list files" and nothing is removed. Otherwise every entry whose unlinking succeeds is removed and the failures stay listed, in order. An empty report, including an empty album, answers `deletedAll`; a non-empty one answers the 500 partial failure carrying exactly those names. |

## Left out

- The HTTP server, routing, `listen` and the port constant (app.js:7-8, 126-128) are network plumbing. Each handler is a method that takes the route parameters.
- CORS, JSON body parsing and static file serving (app.js:22-24) are library middleware with no logic of their own. The URLs are modelled only as the strings the handlers return.
- Multipart decoding and the file bytes (app.js:27-35) are not modelled. Only the presence of a file and its original name matter; the upload is `Option<string>`.
- Gallery.AlbumStore.Upload: the `file` parameter is the name as the multipart layer delivers it; how that layer shortens or drops a client's file name (by default it keeps only the last component and delivers no file for `.` or `..`, which the handler then answers with 400) is not modelled.
- Gallery.AlbumStore.Upload: records the name as an entry of the album. It does not model where `path.join` would resolve a name holding `/` or `..`.
- Gallery.AlbumStore.Upload: always answers `Uploaded` for a present file. A failing write (an album that is not writable, a full disk, a name the filesystem refuses), which the storage layer hands on as a 500 error, is not modelled.
- Listing.Put: a new name is appended at the end of the listing and the others keep their relative order. A real directory reads new entries back in its own order (newest first on some filesystems, hash order on others); that order is not modelled.
- The image root and the album directories are assumed to be directories. A regular file standing where an album directory should be is not modelled.
- Errno values are abstracted to "no such entry" versus everything else, using the two failure oracles. The reasons a listing or an unlink fails are not modelled. A name holding a NUL byte makes the path call throw, and the framework then answers its own 500 page rather than the handler's JSON body; the model gives the handler's 500 "Unable to delete file" for it when the failure oracle names it.
- Asynchronous callbacks and interleaved requests are not modelled; the model handles one request at a time.
- Error logging (app.js:55, 88, 102) has no effect on responses and is not modelled.
- `path.basename` is modelled for POSIX separators only. Windows backslash handling is not modelled.
- JSON encoding of the response bodies is not modelled. Responses are the `Response` datatype, and `Status` gives their HTTP status.
