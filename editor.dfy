/**
 * Two decisions of the editor window in pymerdoc/main.py: which colours the
 * HTML preview uses for the current preview theme (update_preview), and
 * whether an action that would lose unsaved text may go ahead (maybe_save).
 */
module Editor {
  import opened Wrappers

  /** The colours update_preview writes into the preview's style sheet. */
  datatype PreviewColours = PreviewColours(
    background: string,         // body background-color
    text: string,               // body color
    codeBackground: string,     // pre background-color
    diagramBackground: string,  // .mermaid background
    cellBorder: string,         // th, td border colour
    headerBackground: string)   // th background-color

  const LightColours := PreviewColours("#ffffff", "#24292e", "#f6f8fa", "white", "#ddd", "#f6f8fa")
  const DarkColours := PreviewColours("#1e1e1e", "#ffffff", "#2d2d2d", "#1e1e1e", "#3c3c3c", "#2d2d2d")

  /**
   * The colours for a preview theme name. The theme manager sets the name
   * to "light", "dark" or "default" (the system theme); the window starts
   * with "default".
   */
  function PreviewColoursFor(theme: string): (c: PreviewColours)
    ensures c == LightColours <==> theme == "light"
    ensures c == DarkColours <==> theme != "light"
  {
    PreviewColours(
      if theme == "light" then "#ffffff" else "#1e1e1e",
      if theme == "light" then "#24292e" else "#ffffff",
      if theme == "light" then "#f6f8fa" else "#2d2d2d",
      if theme == "light" then "white" else "#1e1e1e",
      if theme == "light" then "#ddd" else "#3c3c3c",
      if theme == "light" then "#f6f8fa" else "#2d2d2d")
  }

  /**
   * Every colour differs between the two schemes, and every theme name but
   * "light" (the dark theme and the system theme alike) gets the dark one.
   */
  lemma ThemeSelectsScheme(theme: string)
    ensures theme == "light" ==> PreviewColoursFor(theme).background == "#ffffff"
    ensures theme != "light" ==> PreviewColoursFor(theme).background == "#1e1e1e"
    ensures PreviewColoursFor("default") == PreviewColoursFor("dark") == DarkColours
    ensures LightColours.background != DarkColours.background &&
            LightColours.text != DarkColours.text &&
            LightColours.codeBackground != DarkColours.codeBackground &&
            LightColours.diagramBackground != DarkColours.diagramBackground &&
            LightColours.cellBorder != DarkColours.cellBorder &&
            LightColours.headerBackground != DarkColours.headerBackground
  {
    assert "default" != "light" by { assert "default"[0] != "light"[0]; }
    assert "dark" != "light" by { assert "dark"[0] != "light"[0]; }
    assert LightColours.background[1] != DarkColours.background[1];
    assert LightColours.text[1] != DarkColours.text[1];
    assert LightColours.codeBackground[1] != DarkColours.codeBackground[1];
    assert LightColours.diagramBackground[0] != DarkColours.diagramBackground[0];
    assert |LightColours.cellBorder| != |DarkColours.cellBorder|;
    assert LightColours.headerBackground[1] != DarkColours.headerBackground[1];
  }

  /** The buttons of the "document has been modified" question. */
  datatype Answer = Save | Discard | Cancel

  /**
   * What maybe_save does: whether it asks at all, whether it starts a save
   * (save_file, which itself may ask for a file name), and what it returns
   * (true lets the caller go on with closing, opening or a new document).
   */
  datatype SaveDecision = SaveDecision(asked: bool, saveStarted: bool, proceed: bool)

  /**
   * The decision for a document whose modified flag is `modified`; `answer`
   * is the button the user would press, used only when the question is asked.
   */
  function MaybeSave(modified: bool, answer: Answer): (d: SaveDecision)
    ensures d.asked <==> modified
    ensures d.saveStarted <==> modified && answer == Save
    ensures !d.proceed <==> modified && answer == Cancel
    ensures !modified ==> d == SaveDecision(false, false, true)
  {
    if !modified then SaveDecision(false, false, true)
    else if answer == Save then SaveDecision(true, true, true)
    else if answer == Cancel then SaveDecision(true, false, false)
    else SaveDecision(true, false, true)
  }

  /**
   * When the caller goes on with a modified document, the user chose
   * either Discard or Save, and in the second case a save was started
   * (whether it wrote the file is not looked at; see ProceedsAfterFailedSave).
   */
  lemma ProceedOnlyAfterSaveOrDiscard(modified: bool, answer: Answer)
    ensures MaybeSave(modified, answer).proceed && modified ==>
              (answer == Save && MaybeSave(modified, answer).saveStarted) || answer == Discard
    ensures MaybeSave(modified, answer).saveStarted ==> MaybeSave(modified, answer).proceed
  {
  }

  /**
   * save_file: writes to the current file when there is one, otherwise to
   * the name chosen in the Save As dialog (empty when the dialog is
   * dismissed). The result is the file written, or None when nothing was
   * written: no name was chosen, or the write raised and _save_file only
   * showed the error.
   */
  function SaveFile(currentFile: string, chosen: string, writeSucceeds: bool): (written: Option<string>)
    ensures written.Some? <==> (currentFile != "" || chosen != "") && writeSucceeds
    ensures written.Some? ==> written.value != "" &&
                              written.value == (if currentFile != "" then currentFile else chosen)
  {
    var target := if currentFile != "" then currentFile else chosen;
    if target != "" && writeSucceeds then Some(target) else None
  }

  /**
   * maybe_save as written returns True after Save whatever save_file did:
   * when nothing was written (an untitled document whose Save As dialog
   * is dismissed, or a failing write), closing, New and Open still go on
   * and the modified text is lost.
   */
  lemma ProceedsAfterFailedSave(currentFile: string, chosen: string, writeSucceeds: bool)
    requires SaveFile(currentFile, chosen, writeSucceeds).None?
    ensures MaybeSave(true, Save).saveStarted && MaybeSave(true, Save).proceed
  {
  }

  /** The concrete case: an untitled modified document, Save pressed, the Save As dialog dismissed. */
  lemma UntitledSaveDismissedProceeds()
    ensures SaveFile("", "", true) == None
    ensures MaybeSave(true, Save).proceed
  {
  }

  /**
   * The decision with the save's outcome taken into account: after Save
   * the caller goes on only when the file was written, so a modified
   * document is only left when it was written or the user discarded it.
   */
  function MaybeSaveChecked(modified: bool, answer: Answer, currentFile: string, chosen: string, writeSucceeds: bool)
    : (d: SaveDecision)
    ensures d.asked <==> modified
    ensures d.saveStarted <==> modified && answer == Save
    ensures d.proceed <==> !modified || answer == Discard ||
                           (answer == Save && SaveFile(currentFile, chosen, writeSucceeds).Some?)
  {
    var d := MaybeSave(modified, answer);
    if d.saveStarted then d.(proceed := SaveFile(currentFile, chosen, writeSucceeds).Some?) else d
  }
}
