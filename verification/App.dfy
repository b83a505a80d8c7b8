/** The state logic of the `App` class (src/App.hpp): the active dictionary and its
    path, the two auxiliary windows with their deferred-close flags, the dictionary list
    the file dialog feeds, and the arithmetic `process` does on a translation.
    Reading and parsing a dictionary file, the file dialog and `config.json` are outside
    the model: each step receives what they produced as a parameter (`None` for a file
    that failed to load or parse, a dialog that was cancelled, a configuration file that
    could not be opened). */
module App {
  import opened Options
  import opened DictionaryStore
  import opened Tokenizer
  import opened Translation

  /** `config["file"]`, the active dictionary path, and `config["dictionaries"]`. */
  datatype Config = Config(file: string, dictionaries: seq<string>)

  /** The configuration the application starts with (src/App.hpp:25-28). */
  const DefaultConfig := Config("basic.json", [])

  /** The fields of `App` that carry logic.  `editor` is the live editor window, with the
      path it was opened on; `info` says whether the info window exists; `offered` is
      every path handed to the page's `addDictionaryOption` after a successful open. */
  datatype AppState = AppState(
    translator: Translator,
    config: Config,
    editor: Option<string>,
    closeEditor: bool,
    info: bool,
    closeInfo: bool,
    offered: seq<string>)

  /** The life of an auxiliary window slot: no window; a live window; a window whose
      close callback has run but which has not been destroyed yet. */
  datatype Phase = Absent | Open | CloseRequested

  function EditorPhase(app: AppState): Phase {
    if app.editor.None? then Absent else if app.closeEditor then CloseRequested else Open
  }

  function InfoPhase(app: AppState): Phase {
    if !app.info then Absent else if app.closeInfo then CloseRequested else Open
  }

  /** A pending close always belongs to a window that still exists. */
  predicate Consistent(app: AppState) {
    (app.closeEditor ==> app.editor.Some?) && (app.closeInfo ==> app.info)
  }

  datatype Attempt = Attempt(state: AppState, ok: bool)

  /** `trySetDictionary`: either the parsed dictionary is installed and its path becomes
      `config["file"]`, or (the load or parse threw) nothing changes at all. */
  function TrySetDictionary(app: AppState, path: string, loaded: Option<Dictionary>): (r: Attempt)
    ensures r.ok <==> loaded.Some?
    ensures r.ok ==> r.state.translator.dictionary == loaded.value && r.state.config.file == path
    ensures !r.ok ==> r.state == app
    ensures r.state.(translator := app.translator, config := app.config) == app
    ensures r.state.config.dictionaries == app.config.dictionaries
  {
    match loaded
    case None => Attempt(app, false)
    case Some(d) =>
      Attempt(app.(translator := SetDictionary(app.translator, d), config := app.config.(file := path)), true)
  }

  /** The application after its constructor: the default configuration, or the one read
      from `config.json` followed by an attempt to load its dictionary.  `configFile` is
      `None` when `config.json` could not be opened; `loaded` is what loading the
      configured dictionary gives. */
  function Startup(configFile: Option<Config>, loaded: Option<Dictionary>): (r: AppState)
    ensures Consistent(r) && EditorPhase(r) == Absent && InfoPhase(r) == Absent && r.offered == []
    ensures configFile.None? ==> r.config == DefaultConfig && r.translator.dictionary == Empty
    ensures configFile.Some? ==> r.config == configFile.value
    ensures configFile.Some? && loaded.Some? ==> r.translator.dictionary == loaded.value
    ensures configFile.Some? && loaded.None? ==> r.translator.dictionary == Empty
  {
    var initial := AppState(Translator(Empty), DefaultConfig, None, false, false, false, []);
    match configFile
    case None => initial
    case Some(cfg) => TrySetDictionary(initial.(config := cfg), cfg.file, loaded).state
  }

  /** `loadDictionary`, called by the page with a path from its list. */
  function LoadDictionary(app: AppState, path: string, loaded: Option<Dictionary>): (r: AppState)
    ensures loaded.Some? ==> r.translator.dictionary == loaded.value && r.config.file == path
    ensures loaded.None? ==> r == app
    ensures r.(translator := app.translator, config := app.config) == app
    ensures r.config.dictionaries == app.config.dictionaries
    ensures Consistent(app) ==> Consistent(r)
  {
    TrySetDictionary(app, path, loaded).state
  }

  /** `openNewDictionary`.  `picked` is the path the file dialog returned, if any.  The
      `contains` test in the source is applied to a JSON array, where it always answers
      false, so a successful load always appends the path to the list. */
  function OpenNewDictionary(app: AppState, picked: Option<string>, loaded: Option<Dictionary>): (r: AppState)
    ensures picked.None? || loaded.None? ==> r == app
    ensures picked.Some? && loaded.Some? ==>
      && r.translator.dictionary == loaded.value
      && r.config.file == picked.value
      && r.config.dictionaries == app.config.dictionaries + [picked.value]
      && r.offered == app.offered + [picked.value]
    ensures r.(translator := app.translator, config := app.config, offered := app.offered) == app
    ensures Consistent(app) ==> Consistent(r)
  {
    match picked
    case None => app
    case Some(path) =>
      var attempt := TrySetDictionary(app, path, loaded);
      if attempt.ok then
        attempt.state.(
          config := attempt.state.config.(dictionaries := attempt.state.config.dictionaries + [path]),
          offered := attempt.state.offered + [path])
      else attempt.state
  }

  /** `openEditor`: a new editor on the active dictionary path takes the slot.  The close
      flag is left as it is. */
  function OpenEditor(app: AppState): (r: AppState)
    ensures r.editor == Some(app.config.file)
    ensures r.(editor := app.editor) == app
    ensures EditorPhase(r) != Absent && InfoPhase(r) == InfoPhase(app)
    ensures Consistent(app) ==> Consistent(r)
  {
    app.(editor := Some(app.config.file))
  }

  /** `openInfo`. */
  function OpenInfo(app: AppState): (r: AppState)
    ensures r.info
    ensures r.(info := app.info) == app
    ensures InfoPhase(r) != Absent && EditorPhase(r) == EditorPhase(app)
    ensures Consistent(app) ==> Consistent(r)
  {
    app.(info := true)
  }

  /** The callback the editor calls from inside its own `OnClose`: it only raises the
      flag; the window is not destroyed and the dictionary is not touched.  Only the
      editor held in the slot can call it, since replacing an editor destroys the old
      one. */
  function EditorClosed(app: AppState): (r: AppState)
    requires app.editor.Some?
    ensures EditorPhase(r) == CloseRequested
    ensures r.(closeEditor := app.closeEditor) == app
    ensures InfoPhase(r) == InfoPhase(app)
    ensures Consistent(app) ==> Consistent(r)
  {
    app.(closeEditor := true)
  }

  /** The callback the info window calls from inside its own `OnClose`; only the
      window held in the slot can call it. */
  function InfoClosed(app: AppState): (r: AppState)
    requires app.info
    ensures InfoPhase(r) == CloseRequested
    ensures r.(closeInfo := app.closeInfo) == app
    ensures EditorPhase(r) == EditorPhase(app)
    ensures Consistent(app) ==> Consistent(r)
  {
    app.(closeInfo := true)
  }

  /** `OnUpdate`, run by the event loop outside any window callback.  A pending editor
      close first reloads the dictionary from the active path (`reloaded` is what that
      load gives), then destroys the editor and clears the flag; a pending info close
      destroys the info window and clears its flag. */
  function OnUpdate(app: AppState, reloaded: Option<Dictionary>): (r: AppState)
    ensures app.closeEditor ==>
      && r.editor.None? && !r.closeEditor
      && r.translator == TrySetDictionary(app, app.config.file, reloaded).state.translator
      && r.config == app.config
    ensures !app.closeEditor ==>
      r.editor == app.editor && !r.closeEditor && r.translator == app.translator && r.config == app.config
    ensures app.closeInfo ==> !r.info && !r.closeInfo
    ensures !app.closeInfo ==> r.info == app.info && !r.closeInfo
    ensures r.offered == app.offered
  {
    var afterEditor :=
      if app.closeEditor then
        TrySetDictionary(app, app.config.file, reloaded).state.(editor := None, closeEditor := false)
      else app;
    if afterEditor.closeInfo then afterEditor.(info := false, closeInfo := false) else afterEditor
  }

  /** The deferred close as a state machine: an update takes a slot whose close was
      requested to `Absent` and leaves every other slot as it was; the dictionary is
      reloaded exactly when the editor slot was in `CloseRequested`. */
  lemma OnUpdateDrainsPendingCloses(app: AppState, reloaded: Option<Dictionary>)
    requires Consistent(app)
    ensures Consistent(OnUpdate(app, reloaded))
    ensures EditorPhase(OnUpdate(app, reloaded)) ==
      if EditorPhase(app) == CloseRequested then Absent else EditorPhase(app)
    ensures InfoPhase(OnUpdate(app, reloaded)) ==
      if InfoPhase(app) == CloseRequested then Absent else InfoPhase(app)
    ensures EditorPhase(app) != CloseRequested ==> OnUpdate(app, reloaded).translator == app.translator
    ensures EditorPhase(app) == CloseRequested && reloaded.Some? ==>
      OnUpdate(app, reloaded).translator.dictionary == reloaded.value
    ensures EditorPhase(app) == CloseRequested && reloaded.None? ==>
      OnUpdate(app, reloaded).translator == app.translator
  {
  }

  /** A closing window is only destroyed by a later update: the callback followed by
      the update reaches `Absent`, the callback alone leaves the window alive. */
  lemma CloseTakesTwoPhases(app: AppState, reloaded: Option<Dictionary>)
    requires Consistent(app) && EditorPhase(app) == Open && InfoPhase(app) == Open
    ensures EditorClosed(app).editor == app.editor
    ensures EditorPhase(OnUpdate(EditorClosed(app), reloaded)) == Absent
    ensures InfoClosed(app).info
    ensures InfoPhase(OnUpdate(InfoClosed(app), reloaded)) == Absent
    ensures EditorPhase(OnUpdate(InfoClosed(app), reloaded)) == Open
  {
  }

  /** `openEditor` does not clear a pending close: an editor opened after the old one's
      close callback but before the next update is destroyed by that update. */
  lemma ReopenBeforeUpdateIsDestroyed(app: AppState, reloaded: Option<Dictionary>)
    requires EditorPhase(app) == CloseRequested
    ensures EditorPhase(OpenEditor(app)) == CloseRequested
    ensures EditorPhase(OnUpdate(OpenEditor(app), reloaded)) == Absent
  {
  }

  /** What `process` hands back: the translation, the counter shown next to it, and the
      value returned to the page. */
  datatype Processed = Processed(result: string, count: nat, returned: nat)

  /** `process`: translate the text; the counter is 0 for an empty result and the
      result's length minus one otherwise, which, since a non-empty translation ends in
      its separator space, is the length of the result without that space; the return
      value is the length of the input (its UTF-8 length, which is its character count
      for ASCII text). */
  function Process(app: AppState, text: string): (r: Processed)
    ensures r.result == Translate(app.translator.dictionary, text)
    ensures r.result == "" || (r.count < |r.result| && r.result == r.result[..r.count] + " ")
    ensures r.result == "" ==> r.count == 0
    ensures r.returned == |text|
  {
    var result := Translate(app.translator.dictionary, text);
    TranslationSeparators(app.translator.dictionary, text);
    Processed(result, if |result| == 0 then 0 else |result| - 1, |text|)
  }

  /** The counter is the length of the pieces joined by single spaces. */
  lemma ProcessCountsJoinedPieces(app: AppState, text: string)
    ensures InBounds(text, Tokenize(text))
    ensures Process(app, text).count ==
      if Tokenize(text) == [] then 0
      else |SpaceJoined(Pieces(app.translator.dictionary, text, Tokenize(text)))|
  {
    var d := app.translator.dictionary;
    TranslationSeparators(d, text);
    RenderSeparatesEveryToken(d, text, Tokenize(text));
  }

  /** A successful load is seen by every later translation; a failed one changes no
      translation. */
  lemma LoadsDecideLaterTranslations(app: AppState, path: string, d: Dictionary, text: string)
    ensures Process(LoadDictionary(app, path, Some(d)), text).result == Translate(d, text)
    ensures Process(LoadDictionary(app, path, None), text) == Process(app, text)
  {
  }

}
