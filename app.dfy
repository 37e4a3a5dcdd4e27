/** The extension changer's window state: the selected path, the label of the
    original extension, the extension picked from the list, the status line
    and whether the save button is enabled. The native dialogs are not run:
    what the user answers in them is passed in, and what the app asks of them
    (the warning, the save dialog, the message boxes, the file copy) is
    returned as a record of the attempt. */
module ExtensionChangerApp {
  import opened Text
  import opened PosixPath
  import opened Extensions

  datatype Option<T> = None | Some(value: T)

  /** The copy of the selected file to the destination (`shutil.copy2`),
      recorded rather than performed. */
  datatype Copy = Copy(source: string, destination: string)

  /** The message box shown at the end of a save attempt, if any. */
  datatype MessageBox =
    | NoBox
    | ErrorBox(title: string, message: string)
    | InfoBox(title: string, message: string)

  /** The native save dialog, opened for the selected file and the picked
      extension; its member functions give what it is seeded with. */
  datatype SaveDialog = SaveDialog(selected: string, ext: string) {
    /** It opens in the selected file's directory, */
    function InitialDir(): string { Dirname(selected) }
    /** offers the selected file's name with the new extension, */
    function InitialFile(): string { SuggestedFilename(selected, ext) }
    /** appends the new extension when the typed name has none, */
    function DefaultExtension(): string { "." + ext }
    function Title(): string { "Save File As (Rename Only)" }
    /** and filters on the new extension first. */
    function FileTypes(): seq<(string, string)> {
      [(Upper(ext) + " files", "*." + ext), ("All files", "*.*")]
    }
  }

  /** What one press of the save button asked of the user and of the file
      system: the yes/no warning, the save dialog, the copy, and
      the closing message box. */
  datatype SaveRun = SaveRun(
    warning: Option<Warning>,
    dialog: Option<SaveDialog>,
    copy: Option<Copy>,
    box: MessageBox)

  const NoFileError := "Please select a file first."
  const NoExtensionError := "Please choose a new extension from the list."
  const DeclinedStatus := "Save operation cancelled by user due to warning."
  const DialogCancelledStatus := "Save operation cancelled."

  /** The gating rule of the save button: a file is selected and an extension
      is picked. */
  predicate ReadyToSave(path: string, ext: string) {
    IsFileSelected(path) && ext != ""
  }

  /** The yes/no compatibility warning, by the two extensions it names. */
  datatype Warning = Warning(original: string, requested: string) {
    function Title(): string { "Potential Compatibility Issue" }

    /** The question the warning asks. */
    function Message(): string {
      "You are changing the file extension from '." + original + "' to '." + requested + "'.\n\n"
      + "IMPORTANT: This action only RENAMES the file. It does NOT convert the actual file content or format.\n\n"
      + "Opening the renamed file with software expecting a '." + requested
      + "' format may fail, show errors, or display corrupted data.\n\n"
      + "Do you want to proceed with renaming?"
    }
  }

  function SavedStatus(dest: string): string { "File renamed and saved as: " + Basename(dest) }
  function SavedBox(dest: string): MessageBox { InfoBox("Success", "File successfully renamed and saved as:\n" + dest) }
  function FailedStatus(e: string): string { "Error during save: " + e }
  function FailedBox(e: string): MessageBox { ErrorBox("Error", "An error occurred during saving:\n" + e) }

  /** The warning asked before saving: the stored label, stripped of its
      leading dots, is compared with the picked extension. */
  function WarningFor(shown: string, ext: string): (w: Option<Warning>)
    ensures w.Some? <==> LStrip(shown, '.') != ext
    ensures w.Some? ==> w.value == Warning(LStrip(shown, '.'), ext)
  {
    var original := LStrip(shown, '.');
    if original != ext then Some(Warning(original, ext)) else None
  }

  /** For the label derived from a path, the warning is asked exactly when the
      path's own extension differs from the picked one, and it names the
      extensions the user sees: the file's, or "None" for a file without one,
      and the picked one. */
  lemma WarningForDerivedLabel(path: string, ext: string)
    requires IsChoice(ext)
    ensures var w := WarningFor(OriginalLabel(path), ext);
      && (w.Some? <==> GetFileExtension(path) != ext)
      && (w.Some? ==> w.value == Warning(if GetFileExtension(path) == "" then "None" else GetFileExtension(path), ext))
  {
    var e := GetFileExtension(path);
    if e != "" {
      LStripOne(e, '.');
      assert "." + e == ['.'] + e;
    } else {
      assert LStrip("None", '.') == "None";
    }
  }

  /** One press of the save button: what it asks of the user and the file
      system, and the new status line (`None` when the status is left as it
      was). */
  datatype Attempt = Attempt(run: SaveRun, status: Option<string>)

  /** The save step on the window's fields `path`, `shown` (the stored
      original-extension label) and `ext` (the picked extension), given the
      user's answers. */
  function SaveAttempt(path: string, shown: string, ext: string, proceed: bool,
                       chosenPath: string, copyError: Option<string>): Attempt
  {
    if !IsFileSelected(path) then Attempt(SaveRun(None, None, None, ErrorBox("Error", NoFileError)), None)
    else if ext == "" then Attempt(SaveRun(None, None, None, ErrorBox("Error", NoExtensionError)), None)
    else
      var warning := WarningFor(shown, ext);
      if warning.Some? && !proceed then Attempt(SaveRun(warning, None, None, NoBox), Some(DeclinedStatus))
      else
        var dialog := Some(SaveDialog(path, ext));
        if chosenPath == "" then Attempt(SaveRun(warning, dialog, None, NoBox), Some(DialogCancelledStatus))
        else
          var dest := NormalizeSavePath(chosenPath, ext);
          match copyError
          case None => Attempt(SaveRun(warning, dialog, Some(Copy(path, dest)), SavedBox(dest)), Some(SavedStatus(dest)))
          case Some(e) => Attempt(SaveRun(warning, dialog, Some(Copy(path, dest)), FailedBox(e)), Some(FailedStatus(e)))
  }

  /** The two checks come first, the file check before the extension check;
      either failure shows its error and changes nothing else. When both pass,
      neither error is shown. */
  lemma SaveChecksFirst(path: string, shown: string, ext: string, proceed: bool,
                        chosenPath: string, copyError: Option<string>)
    ensures var a := SaveAttempt(path, shown, ext, proceed, chosenPath, copyError);
      && (!IsFileSelected(path) ==> a == Attempt(SaveRun(None, None, None, ErrorBox("Error", NoFileError)), None))
      && (IsFileSelected(path) && ext == "" ==>
            a == Attempt(SaveRun(None, None, None, ErrorBox("Error", NoExtensionError)), None))
      && (ReadyToSave(path, ext) ==>
            a.run.box != ErrorBox("Error", NoFileError) && a.run.box != ErrorBox("Error", NoExtensionError))
  {
    if ReadyToSave(path, ext) && copyError.Some? {
      assert FailedBox(copyError.value).message[0] == 'A';
    }
  }

  /** With the label the window derives from the path, the warning is asked
      exactly when the file's own extension differs from the picked one. */
  lemma SaveWarnsIffExtensionsDiffer(path: string, ext: string, proceed: bool,
                                     chosenPath: string, copyError: Option<string>)
    requires ReadyToSave(path, ext) && IsChoice(ext)
    ensures var a := SaveAttempt(path, OriginalLabel(path), ext, proceed, chosenPath, copyError);
      a.run.warning.Some? <==> GetFileExtension(path) != ext
  {
    var w := WarningFor(OriginalLabel(path), ext);
    assert SaveAttempt(path, OriginalLabel(path), ext, proceed, chosenPath, copyError).run.warning == w;
    WarningIffExtensionsDiffer(path, ext);
  }

  /** Declining the warning, or cancelling the save dialog, ends the attempt
      without a copy and says so in the status line. */
  lemma SaveCancelled(path: string, shown: string, ext: string, proceed: bool,
                      chosenPath: string, copyError: Option<string>)
    requires ReadyToSave(path, ext)
    ensures var a := SaveAttempt(path, shown, ext, proceed, chosenPath, copyError);
      && (a.run.warning.Some? && !proceed ==>
            a == Attempt(SaveRun(a.run.warning, None, None, NoBox), Some(DeclinedStatus)))
      && (a.run.warning.None? || proceed ==> a.run.dialog == Some(SaveDialog(path, ext)))
      && ((a.run.warning.None? || proceed) && chosenPath == "" ==>
            a == Attempt(SaveRun(a.run.warning, a.run.dialog, None, NoBox), Some(DialogCancelledStatus)))
  {
  }

  /** The copy is requested exactly when both checks passed, the warning was
      absent or accepted, and a destination was chosen; it copies the selected
      file to the normalised destination, and its outcome decides the status
      line and the closing message box. */
  lemma SaveCopiesOnlyAfterChecks(path: string, shown: string, ext: string, proceed: bool,
                                  chosenPath: string, copyError: Option<string>)
    ensures var a := SaveAttempt(path, shown, ext, proceed, chosenPath, copyError);
      && (a.run.copy.Some? <==>
            ReadyToSave(path, ext) && (a.run.warning.None? || proceed) && chosenPath != "")
      && (a.run.copy.Some? ==>
            && a.run.copy.value == Copy(path, NormalizeSavePath(chosenPath, ext))
            && a.run.dialog.Some?
            && (copyError.None? ==>
                  a.status == Some(SavedStatus(a.run.copy.value.destination))
                  && a.run.box == SavedBox(a.run.copy.value.destination))
            && (copyError.Some? ==>
                  a.status == Some(FailedStatus(copyError.value)) && a.run.box == FailedBox(copyError.value)))
  {
  }

  /** The copy's destination ends, ignoring case, with the picked extension, and
      the app reads that extension back from it unless the name typed in the
      save dialog is made of dots only. */
  lemma SaveDestinationCarriesExtension(path: string, shown: string, ext: string, proceed: bool,
                                        chosenPath: string, copyError: Option<string>)
    requires IsChoice(ext)
    ensures var a := SaveAttempt(path, shown, ext, proceed, chosenPath, copyError);
      && (a.run.copy.Some? ==> EndsWith(Lower(a.run.copy.value.destination), "." + ext))
      && (a.run.copy.Some? && HasNonDot(Basename(chosenPath)) ==> GetFileExtension(a.run.copy.value.destination) == ext)
  {
    SaveCopiesOnlyAfterChecks(path, shown, ext, proceed, chosenPath, copyError);
    NormalizedEndsWithExtension(chosenPath, ext);
    if HasNonDot(Basename(chosenPath)) {
      NormalizedCarriesExtension(chosenPath, ext);
    }
  }

  /** What the window promises of a save run on the selected `path` with the
      picked `ext` and the save dialog's answer `chosenPath`: once both checks
      pass, the warning is asked exactly when the file's own extension differs
      from the picked one; a copy copies the selected file, and its destination
      ends, ignoring case, with "." + ext and, unless the typed name is made of
      dots only, reads back as having extension `ext`. */
  predicate KeepsSavePromises(path: string, ext: string, chosenPath: string, run: SaveRun) {
    && (ReadyToSave(path, ext) ==> (run.warning.Some? <==> GetFileExtension(path) != ext))
    && (run.copy.Some? ==>
          && run.copy.value.source == path
          && EndsWith(Lower(run.copy.value.destination), "." + ext)
          && (HasNonDot(Basename(chosenPath)) ==> GetFileExtension(run.copy.value.destination) == ext))
  }

  /** A press of the save button keeps those promises while the window's
      fields keep `Valid`'s link between the path, the label and the picked
      extension. */
  lemma SaveGuarantees(path: string, shown: string, ext: string, proceed: bool,
                       chosenPath: string, copyError: Option<string>)
    requires ext == "" || IsChoice(ext)
    requires shown == OriginalLabel(path) || (!IsFileSelected(path) && shown == "N/A")
    ensures KeepsSavePromises(path, ext, chosenPath, SaveAttempt(path, shown, ext, proceed, chosenPath, copyError).run)
  {
    SaveCopiesOnlyAfterChecks(path, shown, ext, proceed, chosenPath, copyError);
    if ReadyToSave(path, ext) {
      SaveWarnsIffExtensionsDiffer(path, ext, proceed, chosenPath, copyError);
      SaveDestinationCarriesExtension(path, shown, ext, proceed, chosenPath, copyError);
    }
  }

  class FileExtensionChangerApp {
    var selectedFilePath: string
    var originalExtension: string
    var newExtension: string
    var statusMessage: string
    var saveEnabled: bool

    /** The state every handler keeps: the picked extension is one the list
        offers, the button is enabled exactly when saving is possible, and the
        original-extension label is derived from the selected path (or is "N/A"
        while no file is selected). */
    ghost predicate Valid()
      reads this`selectedFilePath, this`originalExtension, this`newExtension, this`saveEnabled
    {
      && (newExtension == "" || IsChoice(newExtension))
      && (saveEnabled <==> ReadyToSave(selectedFilePath, newExtension))
      && (originalExtension == OriginalLabel(selectedFilePath)
          || (!IsFileSelected(selectedFilePath) && originalExtension == "N/A"))
    }

    /** The window as it opens: no file, no extension, the button disabled. */
    constructor ()
      ensures Valid()
      ensures selectedFilePath == NoFileSelected && originalExtension == "N/A"
      ensures newExtension == "" && statusMessage == "Please select a file." && !saveEnabled
    {
      selectedFilePath := NoFileSelected;
      originalExtension := "N/A";
      newExtension := "";
      statusMessage := "Please select a file.";
      saveEnabled := false;
    }

    /** `check_enable_save`: the button is enabled exactly when a file is
        selected and an extension is picked. */
    method CheckEnableSave()
      modifies this`saveEnabled
      ensures saveEnabled <==> IsFileSelected(selectedFilePath) && newExtension != ""
    {
      var fileSelected := selectedFilePath != "" && selectedFilePath != NoFileSelected;
      var extSelected := newExtension != "";
      if fileSelected && extSelected {
        saveEnabled := true;
      } else {
        saveEnabled := false;
      }
    }

    /** Picking an extension in the read-only list, which re-checks the button. */
    method ChooseExtension(ext: string)
      requires Valid() && IsChoice(ext)
      modifies this`newExtension, this`saveEnabled
      ensures Valid() && newExtension == ext
      ensures saveEnabled <==> IsFileSelected(selectedFilePath)
    {
      newExtension := ext;
      CheckEnableSave();
    }

    /** `select_file`, with `picked` the path the open dialog returned ("" when
        it was cancelled). A pick replaces the path, its label and the status
        and re-checks the button; a cancel resets the fields only while no file
        is selected, and otherwise changes nothing. */
    method SelectFile(picked: string)
      requires Valid()
      modifies this
      ensures Valid()
      ensures newExtension == old(newExtension)
      ensures picked != "" ==>
        && selectedFilePath == picked
        && originalExtension == OriginalLabel(picked)
        && statusMessage == "Selected: " + Basename(picked)
        && (saveEnabled <==> IsFileSelected(picked) && newExtension != "")
      ensures picked == "" && !IsFileSelected(old(selectedFilePath)) ==>
        && selectedFilePath == NoFileSelected
        && originalExtension == "N/A"
        && statusMessage == "File selection cancelled."
        && !saveEnabled
      ensures picked == "" && IsFileSelected(old(selectedFilePath)) ==>
        && selectedFilePath == old(selectedFilePath)
        && originalExtension == old(originalExtension)
        && statusMessage == old(statusMessage)
        && saveEnabled == old(saveEnabled)
    {
      if picked != "" {
        selectedFilePath := picked;
        var origExt := GetFileExtension(picked);
        originalExtension := if origExt != "" then "." + origExt else "None";
        statusMessage := "Selected: " + Basename(picked);
        CheckEnableSave();
      } else if selectedFilePath == "" || selectedFilePath == NoFileSelected {
        selectedFilePath := NoFileSelected;
        originalExtension := "N/A";
        statusMessage := "File selection cancelled.";
        saveEnabled := false;
      }
    }

    /** `change_and_save`. The user's answers are parameters: `proceed` to the
        warning (read only when it is shown), `chosenPath` from the save dialog
        ("" when cancelled), and `copyError`, the message of the exception the
        copy raised, if it raised one. Only the status line may change. Each
        `return` of the handler ends one branch of the `if` chain below; the
        invariant lets the run keep `KeepsSavePromises`. */
    method ChangeAndSave(proceed: bool, chosenPath: string, copyError: Option<string>) returns (run: SaveRun)
      requires Valid()
      modifies this`statusMessage
      ensures Valid()
      ensures var a := SaveAttempt(selectedFilePath, originalExtension, newExtension, proceed, chosenPath, copyError);
        && run == a.run
        && statusMessage == (if a.status.Some? then a.status.value else old(statusMessage))
      ensures KeepsSavePromises(selectedFilePath, newExtension, chosenPath, run)
    {
      var originalPath := selectedFilePath;
      var newExt := newExtension;
      if originalPath == "" || originalPath == NoFileSelected {
        run := SaveRun(None, None, None, ErrorBox("Error", NoFileError));
      } else if newExt == "" {
        run := SaveRun(None, None, None, ErrorBox("Error", NoExtensionError));
      } else {
        var originalExtStr := LStrip(originalExtension, '.');
        var warning := None;
        if originalExtStr != newExt {
          warning := Some(Warning(originalExtStr, newExt));
        }
        if warning.Some? && !proceed {
          statusMessage := DeclinedStatus;
          run := SaveRun(warning, None, None, NoBox);
        } else {
          var dialog := SaveDialog(originalPath, newExt);
          if chosenPath == "" {
            statusMessage := DialogCancelledStatus;
            run := SaveRun(warning, Some(dialog), None, NoBox);
          } else {
            var savePath := NormalizeSavePath(chosenPath, newExt);
            var copy := Copy(originalPath, savePath);
            match copyError {
              case None =>
                statusMessage := SavedStatus(savePath);
                run := SaveRun(warning, Some(dialog), Some(copy), SavedBox(savePath));
              case Some(e) =>
                statusMessage := FailedStatus(e);
                run := SaveRun(warning, Some(dialog), Some(copy), FailedBox(e));
            }
          }
        }
      }
      SaveGuarantees(originalPath, originalExtension, newExt, proceed, chosenPath, copyError);
    }
  }
}
