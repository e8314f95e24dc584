# Message posting: profile-picture uploads and the dashboard

This project models two parts of a small message-posting web application.

- **The backend's upload configuration** (`backend/multer.js`):
  - The file filter decides whether an uploaded profile picture is accepted. It checks the declared MIME type first, against an exact list of three image types. Only then does it check the file name's extension, lower-cased, against `.jpg`, `.jpeg` and `.png`.
  - The storage callback names an accepted file `<timestamp>-<random><extension>`.
  - Both take the extension with Node's POSIX `path.extname`; only the filter lower-cases it, with `String.prototype.toLowerCase`. Both are modelled here for ASCII text, in modules `NodePath` and `JsString`.
- **The dashboard component of the frontend** (`frontend/src/Components/Dashboard.jsx`):
  - `capitalizeName` and `getProfilePicUrl`, as pure functions.
  - The component's state (the posts, the two inputs of the post form, the dropdown flag), as a class.
  - The handlers `toggleDropdown` and `handlePostSubmit` and the inputs' `onChange`, as methods of that class.

The network, the clock and the random number generator are not modelled. What they deliver is a parameter:
- the server's answer to the post request;
- the timestamp;
- the random number;
- the backend URL.

Modules:
- `Wrappers`: `Option` and `Result`.
- `JsString`: ASCII `toLowerCase`/`toUpperCase`, `trim`, `lastIndexOf` of a character (which `path.extname` scans with), `indexOf` of a character (with which a stored name is read back), and the decimal text of a non-negative integer.
- `NodePath`: `path.basename` and `path.extname`.
- `Upload`: `backend/multer.js`.
- `Dashboard`: `Dashboard.jsx`.

## Model

| member | source | states |
|---|---|---|
| JsString.LowerChar | backend/multer.js:28 | lower-casing one character never yields an upper-case letter, maps every upper-case letter to the lower-case letter at the same place in the alphabet and leaves every other character alone |
| JsString.UpperChar | frontend/src/Components/Dashboard.jsx:17 | upper-casing one character never yields a lower-case letter, maps every lower-case letter to the upper-case letter at the same place in the alphabet and leaves every other character alone |
| JsString.ToLowerCase | backend/multer.js:28 | `toLowerCase` keeps the length and lower-cases position by position |
| JsString.LowerCaseUnchanged | backend/multer.js:28 | a string without upper-case letters is its own lower-casing |
| JsString.ToLowerCaseConcat | backend/multer.js:28 | lower-casing distributes over concatenation |
| JsString.ToLowerCaseSlices | backend/multer.js:28 | lower-casing commutes with taking a prefix or a suffix |
| JsString.ToLowerCaseIdempotent | backend/multer.js:28 | lower-casing twice is lower-casing once |
| JsString.Trim | frontend/src/Components/Dashboard.jsx:102 | `trim` returns a contiguous piece of the input with only whitespace before and after it; it is empty exactly when the input is whitespace only, and otherwise starts and ends with a non-whitespace character |
| JsString.LastIndexOf | backend/multer.js:16 | `lastIndexOf` finds the last occurrence of the character, or reports that there is none |
| JsString.NumberToString | backend/multer.js:15 | the decimal text of a number is a non-empty run of digits, with no leading zero except for 0 itself |
| JsString.DecimalValueOfNumberToString | backend/multer.js:15 | reading the decimal text back gives the number |
| JsString.NumberToStringInjective | backend/multer.js:15 | different numbers have different decimal texts |
| JsString.DigitsHaveNoSeparator | backend/multer.js:15 | a digit string holds no '.', '/' or '-' |
| NodePath.Basename | backend/multer.js:16 | the basename holds no '/' and is no longer than the path |
| NodePath.BasenameIsLastSegment | backend/multer.js:16 | with trailing slashes dropped, the basename is the path's last segment: a suffix that is the whole remaining path or follows a '/' |
| NodePath.BasenameIsSuffix | backend/multer.js:16 | the basename of a path that does not end in '/' is a suffix of the path |
| NodePath.Extname | backend/multer.js:16 | `extname` returns "" or a '.' followed by characters that are neither '.' nor '/' |
| NodePath.ExtnameWithoutDot | backend/multer.js:16 | a name without a '.' has the extension "" |
| NodePath.ExtnameOfDotfile | backend/multer.js:16 | a dotfile such as `.bashrc` has the extension "" |
| NodePath.ExtnameEndsBasename | backend/multer.js:16 | a non-empty extension is a proper suffix of the basename |
| NodePath.ExtnameAsSuffix | backend/multer.js:28-29 | a '.'-initial extension of two or more characters is `extname`'s result exactly when the basename ends with it after at least one other character |
| NodePath.ExtnameOfStemAndExtension | backend/multer.js:16-17 | a stem without '.' or '/' followed by an extension has exactly that extension |
| NodePath.ExtnameToLower | backend/multer.js:28 | the extension of the lower-cased name is the lower-cased extension |
| Upload.FileFilter | backend/multer.js:21-37 | a MIME type outside the list is refused for its type whatever the name; a file is accepted exactly when the MIME type is listed and the lower-cased extension is listed |
| Upload.AllowedExtensionsAreExtensions | backend/multer.js:29 | each allowed extension has the shape `extname` returns |
| Upload.LowerExtensionAllowedIff | backend/multer.js:28-29 | the lower-cased extension is allowed exactly when the lower-cased basename ends in an allowed extension after at least one other character |
| Upload.FileFilterAcceptsIff | backend/multer.js:25-33 | acceptance means a listed MIME type and a name ending in an image extension in any letter case |
| Upload.FileFilterRejectsExtension | backend/multer.js:27-33 | with a listed MIME type, a name without an image extension is refused for its extension |
| Upload.FileFilterIgnoresNameCase | backend/multer.js:28-29 | names that differ only in letter case get the same decision |
| Upload.FileFilterMimeIsCaseSensitive | backend/multer.js:25-36 | `IMAGE/PNG` is refused for its MIME type whatever the name |
| Upload.FileFilterByExtension | backend/multer.js:27-33 | with a listed MIME type, a plain stem followed by an extension is accepted exactly when the lower-cased extension is listed, else refused for its extension |
| Upload.FileFilterAcceptsUpperCaseExtension | backend/multer.js:27-30 | a listed MIME type with a name like `photo.PNG` is accepted |
| Upload.FileFilterRejectsExecutable | backend/multer.js:27-33 | a listed MIME type with a name like `malware.exe` is refused for its extension |
| Upload.Filename | backend/multer.js:14-18 | the stored name holds no '/', ends with the original extension (in its original case) after a non-empty stem, and has that extension |
| Upload.ParseFilenameOfFilename | backend/multer.js:15-17 | a stored name parses back into its timestamp, random number and extension |
| Upload.FilenameInjective | backend/multer.js:15-17 | equal stored names come from equal timestamps, equal random numbers and equal extensions |
| Upload.FilenameKeepsExtensionCase | backend/multer.js:16-17 | `a.JPG` is stored under a name ending in `.JPG` |
| Upload.HandleUpload | backend/multer.js:39-43 | an upload yields a stored name exactly when the filter accepts, and that name is `<timestamp>-<random><extension>`; otherwise it yields the filter's reason; a stored name holds no '/' and has an allowed extension up to case |
| Upload.ErrorMessageIdentifiesReason | backend/multer.js:32-35 | the two refusal messages differ, so the message tells which check failed |
| Dashboard.CapitalizeName | frontend/src/Components/Dashboard.jsx:15-18 | the result is "" exactly for a missing or empty name; otherwise it has the same length, the first character upper-cased and every later one lower-cased |
| Dashboard.CapitalizeNameIsCapitalized | frontend/src/Components/Dashboard.jsx:15-18 | the result never starts with a lower-case letter and has no upper-case letter after that |
| Dashboard.CapitalizeNameFixedPoints | frontend/src/Components/Dashboard.jsx:15-18 | a name is returned unchanged exactly when it is already capitalized |
| Dashboard.CapitalizeNameIdempotent | frontend/src/Components/Dashboard.jsx:15-18 | capitalizing twice is capitalizing once |
| Dashboard.CapitalizeFullName | frontend/src/Components/Dashboard.jsx:207 | capitalizing "first last" as one string lower-cases the last name's initial |
| Dashboard.DisplayName | frontend/src/Components/Dashboard.jsx:156 | capitalizing each name on its own upper-cases both initials and lower-cases every other letter |
| Dashboard.ProfilePicUrl | frontend/src/Components/Dashboard.jsx:144-148 | the URL is never empty; it is the default avatar for a missing or empty path; it is the path itself when the path starts with `http`; otherwise it is the backend URL followed by the path |
| Dashboard.ProfilePicUrlResolvesOnce | frontend/src/Components/Dashboard.jsx:144-148 | with an `http` backend URL every path resolves to an `http` URL, and resolving that URL again changes nothing |
| Dashboard.CanSubmit | frontend/src/Components/Dashboard.jsx:102 | a post may be sent exactly when both the title and the content hold a non-whitespace character |
| Dashboard.DeclinedAlert | frontend/src/Components/Dashboard.jsx:132 | the alert is the server's message when one is present and non-empty, else "Failed to post" |
| Dashboard.DashboardState.constructor | frontend/src/Components/Dashboard.jsx:7-10 | no posts, empty inputs, dropdown closed |
| Dashboard.DashboardState.ToggleDropdown | frontend/src/Components/Dashboard.jsx:50-52 | the dropdown flag flips and nothing else changes |
| Dashboard.DashboardState.EditTitle | frontend/src/Components/Dashboard.jsx:165 | the title input takes the new value and nothing else changes |
| Dashboard.DashboardState.EditContent | frontend/src/Components/Dashboard.jsx:171 | the content input takes the new value and nothing else changes |
| Dashboard.DashboardState.HandlePostSubmit | frontend/src/Components/Dashboard.jsx:101-138 | a blank title or content is refused with "Title and content are required.", nothing is sent and nothing changes; otherwise the current title and content are sent; a created post goes in front of the list and both inputs are cleared; any other answer leaves the state unchanged and raises the matching alert |
| Dashboard.ToggleDropdownTwice | frontend/src/Components/Dashboard.jsx:50-52 | toggling twice restores the whole state |

## Findings

| source | as written | input that shows it | evidently intended | confidence | as-written member | corrected member |
|---|---|---|---|---|---|---|
| frontend/src/Components/Dashboard.jsx:207 | the dropdown label capitalizes the joined string `firstName + ' ' + lastName`, so every letter after the first comes out lower-case | firstName "ann", lastName "lee" shows "Ann lee" | each name capitalized on its own, as the welcome line at line 156 does ("Ann Lee") | medium, not executed | Dashboard.CapitalizeFullName | Dashboard.DisplayName |

## Left out

- Creating the upload directory (`fs.mkdirSync`) and the storage destination are file-system effects. They are not modelled.
- The 2 MiB size limit appears only as the constant `Upload.MaxFileSize`. Multer enforces it while streaming, and that is not modelled.
- Multer's own request handling is not modelled: multipart parsing, streaming, writing the file, and calling the callbacks.
- `console.log` calls are not modelled.
- `Date.now()` and `Math.round(Math.random() * 1E9)` are parameters. The timestamp is any natural number, and the random number lies in 0..10^9. Their sources and floating-point rounding are not modelled.
- Upload.Filename: the decimal text of a number is modelled for every natural number. JavaScript would switch to exponent notation from 10^21 upwards and loses precision beyond 2^53. Timestamps and the random number stay far below both.
- `path.extname` is modelled in its POSIX flavour only. The Windows flavour is not modelled.
- Lower-casing, upper-casing and `trim` are modelled on ASCII. Unicode case mapping is not modelled. Whitespace is the space and the characters tab through carriage return; Unicode spaces, the no-break space and line separators are not modelled.
- Dashboard.CapitalizeName: takes an optional string. JavaScript's other falsy values (`null`, `0`) and non-string names are not modelled.
- Dashboard.ProfilePicUrl: the same applies to the picture path.
- The choice of `BACKEND_URL` from the build mode is not modelled. The URL is a parameter of `Dashboard.ProfilePicUrl`.
- `fetch` and its headers are not modelled. The response's `Content-Type` check and JSON parsing are reduced to the three outcomes of `Dashboard.PostResponse`.
- `alert` is modelled as the returned alert text.
- `navigate` is not modelled.
- The authentication check, the fetching of posts, logout and `handleProfile` are effects outside the modelled handlers.
- The loading screen and the JSX rendering are not modelled.
- `toLocaleString` of the dates is not modelled.
- Dashboard.DashboardState.HandlePostSubmit: runs as one step. React's asynchronous state updates, a stale `posts` closure, and other handlers interleaving with the awaited request are not modelled.
