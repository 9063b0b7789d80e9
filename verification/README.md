# Flask-Demo upload and login checks in Dafny

This project models the only decision logic in the Flask demo application `hello.py`:

- the extension allow-list `ALLOWED_EXTENSIONS`;
- the `allowed_file` validator. A name passes when it has a `.` and the text after its last `.`, lower-cased, is one of `txt`, `pdf`, `png`, `jpg`, `jpeg` or `gif`;
- the branching of the `upload_file` view, as a pure function from the request to an outcome. The outcomes are bad request, redirect back, store under a sanitised name, or no response;
- the `valid_login` check nested in the `login` view, and the view's own branching.

Modules:

- `Wrappers` holds `Option`.
- `Strings` holds the string operations the validator is built from. These are the last index of a character, Python's `rsplit(sep, 1)` and ASCII lower-casing.
- `Upload` holds the allow-list, the validator and the upload view.
- `Login` holds `valid_login` over a small dynamic-value type (`None`, a string, any other plain object — see "## Left out") and the `login` view.

Werkzeug's `secure_filename` is not part of this model. The upload view takes it as a function parameter `secure`, and nothing is assumed about what it returns.

The code checks the allow-list against the RAW client file name (hello.py:92). Only afterwards does it sanitise the name (hello.py:93). One might expect the sanitised name to be the one validated; the model follows the code. `Upload.StoredNameNotRechecked` shows the consequence: a sanitiser that drops a leading dot stores the accepted `.txt` as `txt`, a name with no extension.

## Model

| member | source | states |
|---|---|---|
| Strings.LastIndexOf | hello.py:13 | The search `rsplit('.', 1)` performs: the result is absent iff the character does not occur; otherwise it is a position holding the character with no occurrence after it |
| Strings.RSplitOnce | hello.py:13 | `rsplit(sep, 1)` yields one part (the whole string) iff there is no separator; otherwise two parts that rebuild the string around a separator, the second part separator-free |
| Strings.RSplitOnceRoundTrip | hello.py:13 | Joining the parts of `rsplit(sep, 1)` with the separator gives back the input |
| Strings.RSplitOnceUnique | hello.py:13 | Whenever a string is `before + sep + after` with no separator in `after`, `rsplit(sep, 1)` returns exactly `[before, after]` |
| Strings.LowerChar | hello.py:13 | ASCII lower-casing of one character: the result is never upper case, non-upper-case characters are unchanged, and upper-case letters move to the matching lower-case letter |
| Strings.Lower | hello.py:13 | `.lower()` on a string keeps its length and lower-cases every character in place |
| Strings.LowerIdempotent | hello.py:13 | Lower-casing twice is the same as lower-casing once |
| Strings.LowerConcat | hello.py:13 | Lower-casing distributes over concatenation |
| Strings.LowerKeepsDots | hello.py:13 | Lower-casing neither creates nor removes a `.` at any position |
| Upload.Extension | hello.py:13 | `filename.rsplit('.', 1)[1]` is dot-free and is a suffix that follows a `.` in the name |
| Upload.AllowedFile | hello.py:11-13 | `allowed_file` accepts only names that contain a `.`; an accepted name is at least four characters long (`.txt`) |
| Upload.AllowedFileMeaning | hello.py:6-13 | `allowed_file` holds iff some `.` in the name has no `.` after it and the lower-cased text after it is in {txt, pdf, png, jpg, jpeg, gif} |
| Upload.ExtensionAfterLastDot | hello.py:11-13 | For any stem (dots and emptiness allowed) and dot-free extension, `stem.ext` is accepted iff the lower-cased extension is on the allow-list |
| Upload.NoDotRejected | hello.py:12 | A name without a `.` is rejected |
| Upload.InnerDotAccepted | hello.py:13 | `a.b.png` is accepted: only the text after the last dot is examined |
| Upload.DisguisedExtensionRejected | hello.py:13 | `x.png.exe` is rejected |
| Upload.TrailingDotRejected | hello.py:12-13 | `photo.` has an empty extension and is rejected |
| Upload.EmptyStemAccepted | hello.py:12-13 | `.txt`, with an empty stem, is accepted |
| Upload.UpperCaseAccepted | hello.py:13 | `photo.JPG` is accepted, like `photo.jpg` |
| Upload.LowerExtension | hello.py:13 | Lower-casing the text after the last dot: a name without a dot is unchanged; otherwise everything up to and including the last dot is kept, and the new extension is the lower-cased old one (same length, dot presence kept) |
| Upload.CaseInsensitiveExtension | hello.py:13 | A name and the same name with its extension lower-cased get the same verdict |
| Upload.CaseInsensitiveName | hello.py:13 | A name and its lower-cased form get the same verdict |
| Upload.UploadFile | hello.py:83-95 | A non-POST request ends without a response; a bad request happens iff a POST lacks the `file` part; a stored name is always `secure` of the raw part's file name |
| Upload.EmptyNameRedirects | hello.py:89-91 | On POST an empty file name always takes the flash-and-redirect branch and never stores |
| Upload.StoreExactly | hello.py:85-95 | Given a `file` part, the view stores exactly when the method is POST, the raw name is non-empty and the raw name passes the allow-list check. It stores under `secure(raw)`. An empty name redirects back, and every other case ends without a response |
| Upload.DecisionIgnoresSanitizer | hello.py:92-93 | Whether the view stores does not depend on the sanitiser; outcomes other than a store are identical for any two sanitisers |
| Upload.StoredNameNotRechecked | hello.py:92-93 | The sanitised name is not re-checked: with a sanitiser mapping `.txt` to `txt`, a POST of `.txt` is stored as `txt`, a name the allow-list check rejects |
| Login.RequireString | hello.py:28-31 | A guard returns True iff the value is a string; otherwise it raises a TypeError naming the argument and the value |
| Login.ValidLogin | hello.py:27-36 | `valid_login` never returns False. It returns True iff the username is a string. Otherwise it raises a TypeError about the username |
| Login.PasswordIgnored | hello.py:27-36 | The password never affects the result of `valid_login` |
| Login.NonePasswordAccepted | hello.py:28-36 | A string username with a None password is accepted |
| Login.ValidLoginBoth | hello.py:27-36 | With both guards in force: never False. True iff both values are strings. The error names the username if it is bad, and otherwise the password |
| Login.ValidLoginReadingsAgree | hello.py:27-36 | The as-written and the two-guard check agree iff the username is not a string or the password is one |
| Login.LoginView | hello.py:38-50 | A non-POST renders the form with no error; a bad request happens iff a POST lacks the username or password field |
| Login.LoginPostWelcomes | hello.py:39-44 | A POST with both fields always renders the welcome page for that username |
| Login.LoginNeverRejects | hello.py:43-46 | The view never shows "Invalid username/password" and no TypeError escapes it |
| Login.FormInputsHideDeadBranch | hello.py:40-43 | On string form fields the as-written and the two-guard check give the same result |

## Findings

| source | as written | input that shows it | evidently intended | confidence | as-written member | corrected member |
|---|---|---|---|---|---|---|
| hello.py:33-36 | The password guard comes after an if/else whose two branches both leave `valid_login`, so it never runs | `valid_login("alice", None)` returns True | A None or non-string password raises TypeError, like a bad username | high that the guard is dead code; not executed | Login.NonePasswordAccepted | Login.ValidLoginBoth |

`Login.LoginView` calls the check as written, as hello.py:43 does. `Login.FormInputsHideDeadBranch` proves the corrected check would give the same result on the view's inputs, because form fields are always strings. So the dead branch is invisible through the view.

## Left out

- Flask routing and the static and echo routes (hello.py:16-22, 52-81): they return fixed strings or echo their URL parameter.
- `render_template`, `flash`, `redirect`, `url_for`, the `print(request)` in the login view and the `test_request_context` prints (hello.py:26, 44, 50, 90-91, 95, 97-101): framework calls and I/O. The outcome datatypes record only which branch was taken and the arguments that matter.
- `secure_filename` (hello.py:93): a werkzeug library function. It is a parameter of the upload view.
- `file.save(os.path.join(...))` (hello.py:94): a filesystem write, not modelled. `os` is never imported in hello.py, so this line would raise NameError on every store. Even without that, hello.py defines no `uploaded_file` endpoint, so the `url_for` at hello.py:95 would raise BuildError. `Store` records the name the code would save under.
- Upload.UploadFile: `RedirectBack` records the branch taken, not what the client receives. hello.py never sets `app.secret_key`, so `flash` at hello.py:90 stores into Flask's null session and raises RuntimeError ("no secret key was set"); the `redirect` at hello.py:91 is never returned and the empty-name POST ends in a server error. Nothing here was executed; this follows from reading the code.
- Upload.UploadFile: `NoResponse` stands for the view returning None. Flask then reports a server error, which is not modelled.
- Upload.UploadFile: the `if file` truthiness test uses werkzeug's rule that a file part is truthy iff its file name is non-empty. That rule comes from werkzeug, which is not part of this model. A file part whose name is None is not modelled either.
- `MAX_CONTENT_LENGTH` (hello.py:8) and `UPLOAD_FOLDER` (hello.py:5, 7): the framework enforces the size limit before the view runs, and the folder only feeds the unmodelled save.
- Strings.Lower: lower-cases ASCII `A`-`Z` only. Python's `str.lower()` also lower-cases other Unicode letters, and some of them expand to several characters. This changes no `allowed_file` verdict: by Python's case tables the only non-ASCII character that lower-cases to pure ASCII is U+212A KELVIN SIGN (to `k`), and `k` occurs in no allowed extension (U+0130 lower-cases to `i` plus a combining dot, which matches no extension either).
- Login.RequireString: `OtherObject` stands for values whose `!= None` test and `%s` formatting behave plainly. A tuple argument makes the `%` at hello.py:31 raise its own formatting TypeError (or show only its element), and an object with a custom `__ne__` can raise from hello.py:28 itself; neither is modelled.
- Login.ValidLogin: same restriction on `OtherObject` as for `Login.RequireString`; the TypeError payload names the username only for such plain values.
- Login.ValidLoginBoth: same restriction on `OtherObject` as for `Login.RequireString`, for both the username and the password message.
- Concurrency between uploads, and the request objects beyond the method, the `file` part's name and the login form fields: not part of the decision logic.
