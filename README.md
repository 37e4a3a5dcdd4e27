# File extension changer — a Dafny model

The extension changer is a small desktop window. The user picks a file and
chooses a new extension from a fixed list. The app then warns that renaming
does not convert the content and asks where to save. It copies the file to
the chosen place, making sure the copy's name carries the new extension.

This project models two parts of that program and proves properties about
them:

- **The string logic.** This covers the POSIX `os.path.splitext`, `basename`
  and `dirname` that the program calls, and `get_file_extension`. It also
  covers the "Selected:" label, the file name suggested in the save dialog,
  and the rewrite that makes the chosen destination carry the extension.
  These are pure functions with lemmas about them.
- **The window's field state machine.** The class
  `FileExtensionChangerApp` has the fields of the program's variables:
  - the selected path, including the placeholder `"No file selected"`;
  - the original-extension label, which is `".ext"`, `"None"` or `"N/A"`;
  - the picked extension;
  - the status line;
  - the save button's enabled flag.

  Its methods are the program's handlers. The native dialogs are not run.
  The user's answers in them are parameters: the picked file, the yes/no
  answer, the save path, and the copy's error message if the copy failed.
  A save attempt returns a `SaveRun` record of what it asked for: the
  warning, the save dialog, the file copy and the closing message box.

Modules:

- `Text` (`text.dfy`): the `str` operations the program uses, namely
  `lower`, `upper`, `lstrip`, `rstrip` and `rfind`.
- `PosixPath` (`posix_path.dfy`): `splitext`, `basename` and `dirname`.
  `SplitExt` follows Python's rule. The extension starts at the last dot of
  the final component, and leading dots of that component are skipped, so
  `.bashrc` and `...` have no extension.
- `Extensions` (`extensions.dfy`): `get_file_extension`, the label, the
  suggested name and the save-path normalisation.
- `ExtensionChangerApp` (`app.dfy`): the class, and `SaveAttempt`. This
  function specifies one press of the save button; `ChangeAndSave` is proved
  against it, and lemmas state what it guarantees.

The class keeps an invariant, `Valid()`, that every handler preserves:
- the picked extension is empty or a valid choice;
- the button is enabled exactly when a file is selected and an extension is
  picked;
- the label is the one derived from the selected path, or `"N/A"` while no
  file is selected.

Four behaviours of the code are easy to misread:

- **The stored label.** The original extension is stored as `"." + ext`, or
  `"None"` for a file without one. The save step strips the leading dots of
  this label and compares it with the picked extension. A file without an
  extension therefore always draws the warning.
- **Case in the destination name.** The destination keeps whatever extension
  the user typed if it matches the picked one ignoring case (`report.PDF` is
  kept for `pdf`). So the saved name ends with `"." + ext` only ignoring case.
- **Dot-only names.** A destination whose final component is made of dots
  only, such as `...`, becomes `....pdf`. `splitext` again reads that as
  having no extension.
- **A file named like the placeholder.** A picked file whose path is
  literally `No file selected` is treated as no selection. This is because
  the program compares the path field with that text.

## Model

| member | source | states |
|---|---|---|
| Text.Lower | file_converter.py:90 | `str.lower`: same length, no upper-case letter in the result, each character the same letter (or the same non-letter) as the input's at that place, and an already lower-case text is returned unchanged |
| Text.LowerKeepsNonLetters | file_converter.py:90 | lower-casing neither creates nor removes a character that is not a letter, such as '.' or '/' |
| Text.LowerAppend | file_converter.py:173 | lower-casing distributes over concatenation |
| Text.Upper | file_converter.py:165 | `str.upper`: same length, no lower-case letter in the result, and each character the same letter (or the same non-letter) as the input's at that place |
| Text.LStrip | file_converter.py:90 | `lstrip(c)`: the result is a suffix of the input, everything removed is `c`, and the result does not start with `c` |
| Text.LStripOne | file_converter.py:135 | stripping the dot from `"." + x`, where `x` does not start with a dot, gives `x` |
| Text.RStrip | file_converter.py:155 | `rstrip(c)`: the result is a prefix of the input, everything removed is `c`, and the result does not end with `c` |
| Text.RFind | file_converter.py:89 | `rfind(c)`: -1 or an index holding `c`, with no `c` after it |
| Text.RFindUnique | file_converter.py:89 | those three properties determine `rfind` |
| PosixPath.Basename | file_converter.py:101 | the basename is a suffix of the path, holds no '/', and follows a '/' when shorter than the path |
| PosixPath.Dirname | file_converter.py:155 | the directory is a prefix of the path, only slashes stand between it and the basename, and it has no trailing slash unless it is the root; it is empty exactly when the path has no '/', and a root made of slashes keeps every slash before the basename (`/a` gives `/`, `//a` gives `//`) |
| PosixPath.SplitExt | file_converter.py:89 | root + extension is the path; the extension is empty or starts with its only dot and holds no '/' |
| PosixPath.SplitExtByBasename | file_converter.py:89 | the extension is non-empty exactly when the basename has a non-dot character before a dot, and then it is the basename from its last dot on |
| PosixPath.SplitExtOfBasename | file_converter.py:156 | the extension depends on the basename only, and the root is the directory part followed by the basename's stem |
| PosixPath.NoDotNoExtension | file_converter.py:89 | a path without a dot has no extension |
| PosixPath.LeadingDotsOnly | file_converter.py:89 | a name whose only dots are leading ones has no dotted suffix |
| PosixPath.NoDottedSuffixNoExtension | file_converter.py:172 | a path whose basename has no dotted suffix splits into itself and "" |
| PosixPath.StemOfName | file_converter.py:156 | the stem of a file name is a file name, and keeps a non-dot character when the name has one |
| PosixPath.RootKeepsNonDot | file_converter.py:172-174 | the root of a path whose basename has a non-dot character still ends in such a basename |
| PosixPath.AppendExtension | file_converter.py:174 | `root + "." + ext` splits back into `(root, "." + ext)` when root's basename has a non-dot character |
| Extensions.PlaceholderHasNoExtension | file_converter.py:86-87 | the placeholder text has no extension |
| Extensions.BareExtension | file_converter.py:90 | lower-casing and stripping a `splitext` extension gives the lower-cased text after its dot, without '.' or '/' |
| Extensions.GetFileExtension | file_converter.py:84-92 | "" for an empty path or the placeholder; otherwise lower case, without '.' and without '/' |
| Extensions.GetFileExtensionIsTextAfterLastDot | file_converter.py:89-90 | for a chosen path, the extension is the lower-cased text after the basename's last dot when a non-dot precedes that dot, and "" otherwise |
| Extensions.HiddenFileHasNoExtension | file_converter.py:89-90 | a basename whose only dots are leading ones (`.bashrc`) gives "" |
| Extensions.OriginalLabel | file_converter.py:99-100 | the label is "None" exactly when the extension is empty, and otherwise "." followed by the extension; read back as the save step reads it (leading dots stripped), it equals an extension the picker offers exactly when the file's own extension does |
| Extensions.WarningIffExtensionsDiffer | file_converter.py:135-138 | for a valid choice, the stripped label differs from it exactly when the file's extension differs from it |
| Extensions.ExtensionlessAlwaysWarns | file_converter.py:135-138 | a file without an extension, labelled "None", always draws the warning |
| Extensions.SuggestedFilename | file_converter.py:155-157 | the suggested name has no '/', ends with "." + the new extension, and putting the old extension back in its place gives the selected file's name |
| Extensions.SuggestedFilenameSplits | file_converter.py:155-157 | unless the file's name is made of dots only, the suggested name splits into the name's stem and "." + ext, and the app reads ext back from it |
| Extensions.ReadBackExtension | file_converter.py:89-90 | a path whose `splitext` extension is "." + ext reads back as ext |
| Extensions.CarriesExtensionIff | file_converter.py:173 | the save step's test agrees with reading the path's extension with `get_file_extension` |
| Extensions.NormalizeSavePath | file_converter.py:172-174 | the result is either the chosen path itself or its root followed by "." + ext, so the chosen directory and stem are always kept as a prefix |
| Extensions.NormalizedEndsWithExtension | file_converter.py:172-174 | the normalised destination ends, ignoring case, with "." + the selected extension |
| Extensions.RewriteOnlyWhenNeeded | file_converter.py:173-174 | rewriting reproduces the chosen path only when that path already carries the extension |
| Extensions.NormalizeKeepsExactlyMatching | file_converter.py:172-174 | the destination is left unchanged exactly when the app already reads the selected extension from it |
| Extensions.NormalizedCarriesExtension | file_converter.py:172-174 | unless the chosen basename is made of dots only, the app reads the selected extension back from the normalised path |
| Extensions.NormalizeIdempotent | file_converter.py:172-174 | normalising twice gives the same path as normalising once, unless the chosen basename is made of dots only |
| Extensions.NormalizeDotOnlyName | file_converter.py:172-174 | for `dir + "/..."`, the first pass gives `dir + "/...." + ext` and a second pass appends "." + ext again |
| Extensions.RewrittenAfterLeadingDots | file_converter.py:172-174 | a destination whose basename has only leading dots always gets "." + ext appended |
| ExtensionChangerApp.WarningForDerivedLabel | file_converter.py:135-138 | for the label derived from a path, the warning is asked exactly when the path's extension differs from the picked one, and it names the file's extension (or "None") and the picked one |
| ExtensionChangerApp.SaveChecksFirst | file_converter.py:125-133 | the file check comes before the extension check; either failure shows its error with no warning, dialog, copy or status change; when both pass, neither error appears |
| ExtensionChangerApp.SaveWarnsIffExtensionsDiffer | file_converter.py:135-150 | with the label derived from the path, the warning is asked exactly when the file's extension differs from the picked one |
| ExtensionChangerApp.SaveCancelled | file_converter.py:147-181 | declining the warning ends with the cancellation status and no dialog; otherwise the dialog is opened for the selected file; cancelling it ends with "Save operation cancelled." and no copy |
| ExtensionChangerApp.SaveCopiesOnlyAfterChecks | file_converter.py:168-185 | a copy is requested exactly when both checks passed, the warning was absent or accepted and a destination was chosen; it copies the selected file to the normalised destination, and its outcome sets the status and message box |
| ExtensionChangerApp.SaveGuarantees | file_converter.py:123-185 | on fields that keep the window's invariant (the label derived from the path, or "N/A" with no file), a save run keeps the promises `ChangeAndSave` states: the warning exactly when the extensions differ, and a copy of the selected file to a destination carrying the extension |
| ExtensionChangerApp.SaveDestinationCarriesExtension | file_converter.py:168-177 | the copy's destination ends, ignoring case, with "." + ext, and reads back as ext unless the typed basename is made of dots only |
| ExtensionChangerApp.FileExtensionChangerApp.constructor | file_converter.py:14-57 | a new window has the placeholder path, "N/A", no extension, "Please select a file." and a disabled button, and is valid |
| ExtensionChangerApp.FileExtensionChangerApp.CheckEnableSave | file_converter.py:112-120 | the button is enabled exactly when the path is neither empty nor the placeholder and an extension is picked |
| ExtensionChangerApp.FileExtensionChangerApp.ChooseExtension | file_converter.py:61-71 | picking an extension stores it and enables the button exactly when a file is selected, keeping the invariant |
| ExtensionChangerApp.FileExtensionChangerApp.SelectFile | file_converter.py:94-110 | a pick sets the path, its label and "Selected: " + basename, and re-gates the button; a cancel with no file selected resets path, label, status and button; a cancel with a file selected changes nothing |
| ExtensionChangerApp.FileExtensionChangerApp.ChangeAndSave | file_converter.py:123-185 | the record and the new status are those of `SaveAttempt` on the window's fields; only the status line may change, and the invariant is kept; once both checks pass, the warning is asked exactly when the selected file's extension differs from the picked one, and a copy copies the selected file to a destination that ends, ignoring case, with "." + ext and reads back as ext unless the typed name is made of dots only |

## Left out

- The tkinter window is not modelled: widget construction, layout, geometry,
  the window title and the event loop (file_converter.py:9-82 and 187-191).
  `StringVar` fields become plain fields, and the button's state becomes a
  boolean.
- The native dialogs are not run; their answers are parameters. `SelectFile`
  takes the path picked in the open dialog. `ChangeAndSave` takes the answer
  to the warning and the path returned by the save dialog. What the save
  dialog itself does with its default extension is not modelled: the model
  normalises whatever path it receives.
- The file copy (`shutil.copy2`) is a recorded `Copy(source, destination)`.
  Its failure is modelled as the message of the exception it raised. Byte and
  metadata preservation, and leaving the source file untouched, are outside
  the model.
- Only the copy's failure is modelled among the failures the `try` block
  (file_converter.py:153-185) catches. A failure of the save dialog
  (line 160) or of the success message box (line 179) is not modelled. Such a
  run would end with "Error during save: …" after the dialog, either with no
  copy or after a completed copy, and the model cannot produce it.
- `dirname`, `splitext` and `basename` raise nothing on strings, so the
  `except` branch of `get_file_extension` (file_converter.py:91-92) is not
  modelled.
- ExtensionChangerApp.FileExtensionChangerApp.ChooseExtension: accepts any
  non-empty, lower-case extension without '.' or '/'. The literal list of
  53 extensions and its sort order (file_converter.py:22-38) are not
  modelled; every listed entry has that form.
- Text.Lower: maps only the ASCII letters. Python's `str.lower` also
  lower-cases other letters.
- Text.Upper: maps only the ASCII letters, like `Text.Lower`.
- PosixPath.SplitExt: models the POSIX flavour only. '/' is the only
  separator; Windows separators and drive letters are not handled.
- Extensions.NormalizeIdempotent: requires that the chosen destination's
  final component contain a character other than a dot.
  `Extensions.NormalizeDotOnlyName` shows that the rewrite is not idempotent
  for a name such as `...`.
- Extensions.NormalizedCarriesExtension: requires that the chosen
  destination's final component contain a character other than a dot. For a
  dot-only name, the rewritten path still ends with "." + ext, but
  `splitext` reads no extension from it.
- ExtensionChangerApp.SaveDestinationCarriesExtension: the read-back half
  has the same requirement. The "ends with" half holds for every
  destination, but only ignoring case.
- Extensions.SuggestedFilenameSplits: requires that the selected file's
  name contain a character other than a dot, for the same reason.
