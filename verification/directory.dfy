/**
 The directory's interactive state and its event handlers: the search,
 the card click that opens the modal, the modal's Prev/Next/close controls
 driven by mouse and by keyboard.
 */
module Directory {
  import opened Options
  import opened Text
  import opened Search

  /**
   The page's global variables after the batch has arrived. `searchOutput`
   keeps the last non-blank search's result even after the search is cleared;
   it is only read while `isSearchActive` holds. `activeUser` is the user the
   modal shows, `None` standing for an out-of-range array read.
   */
  datatype State = State(
    allUsers: seq<User>,
    searchOutput: seq<User>,
    isSearchActive: bool,
    currentIndex: int,
    activeUser: Option<User>,
    modalOpen: bool)

  /** The list the gallery shows, and that card ids and the cursor index into. */
  function ActiveView(s: State): (v: seq<User>)
    ensures s.isSearchActive ==> v == s.searchOutput
    ensures !s.isSearchActive ==> v == s.allUsers
  {
    if s.isSearchActive then s.searchOutput else s.allUsers
  }

  /** An array read: out of range gives `undefined`. */
  function At(view: seq<User>, i: int): (r: Option<User>)
    ensures r.Some? <==> 0 <= i < |view|
    ensures r.Some? ==> r.value == view[i]
  {
    if 0 <= i < |view| then Some(view[i]) else None
  }

  /**
   The invariant the handlers keep: the cursor is never negative, and while
   the modal is open it points into the active view at the user shown.
   */
  predicate CursorInView(s: State) {
    && 0 <= s.currentIndex
    && (s.modalOpen ==>
          && s.currentIndex < |ActiveView(s)|
          && s.activeUser == Some(ActiveView(s)[s.currentIndex]))
  }

  /** The state once the batch is displayed: every user shown, no search, modal hidden. */
  function Loaded(users: seq<User>): (s: State)
    ensures ActiveView(s) == users && s.allUsers == users
    ensures !s.isSearchActive && !s.modalOpen
    ensures CursorInView(s)
  {
    State(users, [], false, 0, None, false)
  }

  // ---------- search ----------

  /**
   `executeSearch`: normalise the text, reset the cursor, and either drop the
   search or replace its output. Re-rendering the gallery re-creates the modal
   hidden, so the modal is closed afterwards.
   */
  function ExecuteSearch(s: State, text: string): (r: State)
    ensures r.allUsers == s.allUsers && r.activeUser == s.activeUser
    ensures r.currentIndex == 0 && !r.modalOpen
    ensures r.isSearchActive <==> Normalise(text) != []
    ensures CursorInView(r)
  {
    var q := Normalise(text);
    if q == [] then
      s.(currentIndex := 0, isSearchActive := false, modalOpen := false)
    else
      s.(currentIndex := 0, isSearchActive := true, searchOutput := Filter(s.allUsers, q), modalOpen := false)
  }

  /** A blank query (empty or only white space) ends the search and shows every user again. */
  lemma SearchBlankShowsAll(s: State, text: string)
    requires forall i :: 0 <= i < |text| ==> IsWhiteSpace(text[i])
    ensures !ExecuteSearch(s, text).isSearchActive
    ensures ActiveView(ExecuteSearch(s, text)) == s.allUsers
  {
  }

  /**
   After a search with a non-blank query, the view is exactly the users whose
   lower-cased "first last" contains the normalised query, in their original order.
   */
  lemma SearchShowsExactlyMatches(s: State, text: string)
    requires exists i :: 0 <= i < |text| && !IsWhiteSpace(text[i])
    ensures var v, q, p := ActiveView(ExecuteSearch(s, text)), Normalise(text), Positions(s.allUsers, Normalise(text));
            && |v| == |p| <= |s.allUsers|
            && (forall j :: 0 <= j < |v| ==> v[j] == s.allUsers[p[j]] && Matches(v[j], q))
            && (forall j, k :: 0 <= j < k < |p| ==> p[j] < p[k])
            && (forall i :: 0 <= i < |s.allUsers| ==> (Matches(s.allUsers[i], q) <==> i in p))
  {
  }

  /** A search no user matches leaves an empty view (the "No results found." state). */
  lemma SearchWithoutMatchesIsEmpty(s: State, text: string)
    requires Normalise(text) != []
    requires forall i :: 0 <= i < |s.allUsers| ==> !Matches(s.allUsers[i], Normalise(text))
    ensures ActiveView(ExecuteSearch(s, text)) == []
  {
    FilterEmptyIffNoMatch(s.allUsers, Normalise(text));
  }

  // ---------- gallery ----------

  /** What a click in the gallery lands on: a rendered card (by its id) or anything else. */
  datatype CardTarget = OffCard | Card(id: nat)

  /**
   `handleCardClick`: the card's id is its position in the rendered list, which
   is the active view, so the cursor and the shown user come from that view.
   */
  function HandleCardClick(s: State, t: CardTarget): (r: State)
    requires t.Card? ==> t.id < |ActiveView(s)|
    ensures t.OffCard? ==> r == s
    ensures t.Card? ==> r.modalOpen && r.currentIndex == t.id && r.activeUser == Some(ActiveView(s)[t.id])
    ensures ActiveView(r) == ActiveView(s) && r.allUsers == s.allUsers
    ensures CursorInView(s) ==> CursorInView(r)
  {
    match t
    case OffCard => s
    case Card(k) => s.(currentIndex := k, activeUser := Some(ActiveView(s)[k]), modalOpen := true)
  }

  /** During a search, opening card k shows the k-th match, not the k-th user overall. */
  lemma OpenAfterSearchShowsMatch(s: State, text: string, k: nat)
    requires Normalise(text) != []
    requires k < |Filter(s.allUsers, Normalise(text))|
    ensures var q := Normalise(text);
            var r := HandleCardClick(ExecuteSearch(s, text), Card(k));
            && r.activeUser == Some(s.allUsers[Positions(s.allUsers, q)[k]])
            && Matches(s.allUsers[Positions(s.allUsers, q)[k]], q)
            && r.currentIndex == k
            && (!Matches(s.allUsers[k], q) ==> r.activeUser != Some(s.allUsers[k]))
  {
  }

  // ---------- modal ----------

  /** Visibility of the modal's Prev and Next buttons. */
  datatype Controls = Controls(prevShown: bool, nextShown: bool)

  predicate HasPrev(s: State) {
    s.currentIndex > 0
  }

  predicate HasNext(s: State) {
    s.currentIndex < |ActiveView(s)| - 1
  }

  /** `updateModalControls`. */
  function ModalControls(s: State): (c: Controls)
    ensures c.prevShown <==> s.currentIndex > 0
    ensures c.nextShown <==> s.currentIndex < |ActiveView(s)| - 1
  {
    Controls(HasPrev(s), HasNext(s))
  }

  /** `getPreviousUser`: move the cursor back one and read the view there. */
  function PreviousUser(s: State): (r: State)
    ensures r.currentIndex == s.currentIndex - 1
    ensures r.activeUser == At(ActiveView(s), s.currentIndex - 1)
    ensures ActiveView(r) == ActiveView(s) && r.modalOpen == s.modalOpen
  {
    var i := s.currentIndex - 1;
    s.(currentIndex := i, activeUser := At(ActiveView(s), i))
  }

  /** `getNextUser`: move the cursor forward one and read the view there. */
  function NextUser(s: State): (r: State)
    ensures r.currentIndex == s.currentIndex + 1
    ensures r.activeUser == At(ActiveView(s), s.currentIndex + 1)
    ensures ActiveView(r) == ActiveView(s) && r.modalOpen == s.modalOpen
  {
    var i := s.currentIndex + 1;
    s.(currentIndex := i, activeUser := At(ActiveView(s), i))
  }

  /** `closeModal`: hide the modal; the cursor and the view stay as they were. */
  function CloseModal(s: State): (r: State)
    ensures !r.modalOpen
    ensures ActiveView(r) == ActiveView(s) && r.currentIndex == s.currentIndex
    ensures CursorInView(s) ==> CursorInView(r)
  {
    s.(modalOpen := false)
  }

  /** A page element as the handlers see it: its `id` and its `textContent`. */
  datatype Element = Element(id: string, text: string)

  const PrevId: string := "modal-prev"
  const NextId: string := "modal-next"
  const CloseId: string := "modal-close-btn"

  /** The modal's buttons as rendered. */
  const PrevButton: Element := Element(PrevId, "Prev")
  const NextButton: Element := Element(NextId, "Next")
  const CloseButton: Element := Element(CloseId, "X")

  /**
   `processModalInteraction`: a click inside the modal. Its listener is attached
   only while the modal is open, so a click on a hidden modal does nothing. The
   close test also accepts any element whose text is "X" (the glyph inside the
   close button).
   */
  function ProcessModalInteraction(s: State, e: Element): (r: State)
    ensures !s.modalOpen ==> r == s
    ensures ActiveView(r) == ActiveView(s) && r.allUsers == s.allUsers
    ensures CursorInView(s) ==> CursorInView(r)
    ensures || r == s
            || (e.id == PrevId && r.currentIndex == s.currentIndex - 1 && r.modalOpen)
            || (e.id == NextId && r.currentIndex == s.currentIndex + 1 && r.modalOpen)
            || ((e.id == CloseId || e.text == "X") && !r.modalOpen && r.currentIndex == s.currentIndex)
  {
    if !s.modalOpen then s
    else if e.id == PrevId && HasPrev(s) then PreviousUser(s)
    else if e.id == NextId && HasNext(s) then NextUser(s)
    else if e.id == CloseId || e.text == "X" then CloseModal(s)
    else s
  }

  /**
   `processModalKeyInteraction`: a key press anywhere on the page, with the id of
   the focused element. Ignored while the modal is hidden; Escape closes;
   Enter or Space activates the focused modal control.
   */
  function ProcessModalKeyInteraction(s: State, key: string, focusedId: string): (r: State)
    ensures !s.modalOpen ==> r == s
    ensures key != "Escape" && key != "Enter" && key != "Space" ==> r == s
    ensures s.modalOpen && key == "Escape" ==> r == CloseModal(s)
    ensures ActiveView(r) == ActiveView(s) && r.allUsers == s.allUsers
    ensures CursorInView(s) ==> CursorInView(r)
  {
    if !s.modalOpen then s
    else if key == "Escape" then CloseModal(s)
    else if key == "Enter" || key == "Space" then
      if focusedId == PrevId && HasPrev(s) then PreviousUser(s)
      else if focusedId == NextId && HasNext(s) then NextUser(s)
      else if focusedId == CloseId then CloseModal(s)
      else s
    else s
  }


  // ---------- properties of the modal ----------

  /**
   The buttons are shown exactly when pressing them does something: Prev when
   a click on it changes the state, Next likewise.
   */
  lemma ControlsMatchGuards(s: State)
    requires s.modalOpen
    ensures ModalControls(s).prevShown <==> ProcessModalInteraction(s, PrevButton) != s
    ensures ModalControls(s).nextShown <==> ProcessModalInteraction(s, NextButton) != s
  {
  }

  /** Prev moves the cursor back by one and shows that user; at the first user it does nothing. */
  lemma PrevStepsBackOne(s: State)
    requires s.modalOpen && CursorInView(s)
    ensures var r := ProcessModalInteraction(s, PrevButton);
            if s.currentIndex > 0 then
              r.currentIndex == s.currentIndex - 1 && r.modalOpen
              && r.activeUser == Some(ActiveView(s)[s.currentIndex - 1])
            else r == s
  {
  }

  /** Next moves the cursor forward by one and shows that user; at the last user it does nothing. */
  lemma NextStepsForwardOne(s: State)
    requires s.modalOpen && CursorInView(s)
    ensures var r := ProcessModalInteraction(s, NextButton);
            if s.currentIndex < |ActiveView(s)| - 1 then
              r.currentIndex == s.currentIndex + 1 && r.modalOpen
              && r.activeUser == Some(ActiveView(s)[s.currentIndex + 1])
            else r == s
  {
  }

  /** The state after clicking Next `n` times. */
  function ClickNextTimes(s: State, n: nat): State
    decreases n
  {
    if n == 0 then s else ClickNextTimes(ProcessModalInteraction(s, NextButton), n - 1)
  }

  /**
   Opening at a user and pressing Next repeatedly walks the view one user at a
   time up to the last one and then stays there.
   */
  lemma {:induction false} NextWalksToLast(s: State, n: nat)
    requires s.modalOpen && CursorInView(s)
    ensures var r := ClickNextTimes(s, n);
            var last := |ActiveView(s)| - 1;
            var i := if s.currentIndex + n <= last then s.currentIndex + n else last;
            && r.modalOpen && ActiveView(r) == ActiveView(s)
            && r.currentIndex == i
            && r.activeUser == Some(ActiveView(s)[i])
    decreases n
  {
    if n > 0 {
      var t := ProcessModalInteraction(s, NextButton);
      NextStepsForwardOne(s);
      NextWalksToLast(t, n - 1);
    }
  }

  /**
   The keyboard path has the click path's guards and transitions: Enter or Space
   on a focused element acts as a click on it, unless the element's text is "X"
   and it is not the close button. Only the click path closes on such an element.
   */
  lemma KeyboardMatchesClick(s: State, e: Element)
    requires e.text == "X" ==> e.id == CloseId
    ensures ProcessModalKeyInteraction(s, "Enter", e.id) == ProcessModalInteraction(s, e)
    ensures ProcessModalKeyInteraction(s, "Space", e.id) == ProcessModalInteraction(s, e)
  {
  }

  /**
   A real space bar reports its key as `" "`; `"Space"` is its key code. The key
   handler compares the key with `"Space"`, so it ignores the space bar. On a
   focused modal button the browser's own click still acts: see
   `SpaceOnNextStillSteps`.
   */
  lemma KeyHandlerIgnoresSpaceBar(s: State, focusedId: string)
    ensures ProcessModalKeyInteraction(s, " ", focusedId) == s
  {
  }

  /**
   A non-button element whose text is "X" (a modal line showing the city "X",
   say) closes the modal when clicked. Such an element has no id, and Enter with
   focus on an element without an id changes nothing.
   */
  lemma TextXClosesOnlyByClick(s: State)
    requires s.modalOpen
    ensures !ProcessModalInteraction(s, Element("", "X")).modalOpen
    ensures ProcessModalKeyInteraction(s, "Enter", "") == s
  {
  }

  // ---------- event sequences ----------

  /** Every input the page reacts to. Both search entry points read the same input box. */
  datatype Event =
    | SearchInput(text: string)
    | SearchSubmit(text: string)
    | GalleryClick(target: CardTarget)
    | ModalClick(element: Element)
    | KeyDown(key: string, focusedId: string)

  /** A gallery click can only land on a card that is rendered, i.e. in the active view. */
  predicate Possible(s: State, ev: Event) {
    ev.GalleryClick? && ev.target.Card? ==> ev.target.id < |ActiveView(s)|
  }

  function Step(s: State, ev: Event): (r: State)
    requires Possible(s, ev)
    ensures r.allUsers == s.allUsers
    ensures CursorInView(s) ==> CursorInView(r)
  {
    match ev
    case SearchInput(text) => ExecuteSearch(s, text)
    case SearchSubmit(text) => ExecuteSearch(s, text)
    case GalleryClick(t) => HandleCardClick(s, t)
    case ModalClick(e) => ProcessModalInteraction(s, e)
    case KeyDown(key, focusedId) => ProcessModalKeyInteraction(s, key, focusedId)
  }

  /** Each event of `evs` can happen in the state the previous ones leave. */
  predicate PossibleRun(s: State, evs: seq<Event>)
    decreases |evs|
  {
    |evs| == 0 || (Possible(s, evs[0]) && PossibleRun(Step(s, evs[0]), evs[1..]))
  }

  function Run(s: State, evs: seq<Event>): State
    requires PossibleRun(s, evs)
    decreases |evs|
  {
    if |evs| == 0 then s else Run(Step(s, evs[0]), evs[1..])
  }

  /**
   Whatever the user does, the batch is never changed and an open modal's
   cursor always points into the active view at the user shown.
   */
  lemma {:induction false} RunKeepsCursorInView(s: State, evs: seq<Event>)
    requires CursorInView(s) && PossibleRun(s, evs)
    ensures CursorInView(Run(s, evs))
    ensures Run(s, evs).allUsers == s.allUsers
    decreases |evs|
  {
    if |evs| > 0 {
      RunKeepsCursorInView(Step(s, evs[0]), evs[1..]);
    }
  }

  /** `sub` is `full` read at the strictly increasing indices `p`. */
  predicate PicksInOrder(sub: seq<User>, full: seq<User>, p: seq<nat>) {
    && |p| == |sub|
    && (forall j :: 0 <= j < |p| ==> p[j] < |full| && sub[j] == full[p[j]])
    && (forall j, k :: 0 <= j < k < |p| ==> p[j] < p[k])
  }

  /** The active view is a subsequence of the batch that keeps the batch's order. */
  ghost predicate ViewInOrder(s: State) {
    exists p :: PicksInOrder(ActiveView(s), s.allUsers, p)
  }

  /** The whole batch, read at every index in turn. */
  lemma PicksAll(users: seq<User>)
    ensures PicksInOrder(users, users, seq(|users|, (i: nat) => i))
  {
  }

  /** Once the batch is displayed, the view is the batch itself. */
  lemma LoadedInOrder(users: seq<User>)
    ensures ViewInOrder(Loaded(users))
  {
    PicksAll(users);
  }

  /**
   No event breaks the order: a search shows either the whole batch or the
   users at `Positions`, and every other event leaves the view alone.
   */
  lemma StepKeepsInOrder(s: State, ev: Event)
    requires Possible(s, ev) && ViewInOrder(s)
    ensures ViewInOrder(Step(s, ev))
  {
    var r := Step(s, ev);
    match ev
    case SearchInput(text) => SearchInOrder(s, text);
    case SearchSubmit(text) => SearchInOrder(s, text);
    case GalleryClick(t) =>
      assert ActiveView(r) == ActiveView(s) && r.allUsers == s.allUsers;
    case ModalClick(e) =>
    case KeyDown(key, focusedId) =>
  }

  /** After any search the view keeps the batch's order. */
  lemma SearchInOrder(s: State, text: string)
    ensures ViewInOrder(ExecuteSearch(s, text))
  {
    var r := ExecuteSearch(s, text);
    var q := Normalise(text);
    if q == [] {
      PicksAll(s.allUsers);
      assert ActiveView(r) == s.allUsers;
    } else {
      assert PicksInOrder(ActiveView(r), s.allUsers, Positions(s.allUsers, q));
    }
  }

  /** Whatever the user does, the active view stays an ordered subsequence of the batch. */
  lemma {:induction false} RunKeepsInOrder(s: State, evs: seq<Event>)
    requires ViewInOrder(s) && PossibleRun(s, evs)
    ensures ViewInOrder(Run(s, evs))
    decreases |evs|
  {
    if |evs| > 0 {
      StepKeepsInOrder(s, evs[0]);
      RunKeepsInOrder(Step(s, evs[0]), evs[1..]);
    }
  }

  /** From the moment the batch is displayed, every session keeps the view in order. */
  lemma SessionKeepsInOrder(users: seq<User>, evs: seq<Event>)
    requires PossibleRun(Loaded(users), evs)
    ensures ViewInOrder(Run(Loaded(users), evs))
  {
    LoadedInOrder(users);
    RunKeepsInOrder(Loaded(users), evs);
  }

  /**
   The space bar on the focused Next button: the key handler ignores `" "`, and
   the click the browser then fires on the button moves to the next user.
   */
  lemma SpaceOnNextStillSteps(s: State)
    requires s.modalOpen && CursorInView(s) && HasNext(s)
    ensures var evs := [KeyDown(" ", NextId), ModalClick(NextButton)];
            && PossibleRun(s, evs)
            && Run(s, evs).modalOpen
            && Run(s, evs).currentIndex == s.currentIndex + 1
            && Run(s, evs).activeUser == Some(ActiveView(s)[s.currentIndex + 1])
  {
    var evs := [KeyDown(" ", NextId), ModalClick(NextButton)];
    KeyHandlerIgnoresSpaceBar(s, NextId);
    NextStepsForwardOne(s);
    var rest := [ModalClick(NextButton)];
    var t := ProcessModalInteraction(s, NextButton);
    assert evs[1..] == rest && rest[1..] == [];
    assert Step(s, evs[0]) == s;
    assert Run(s, evs) == Run(s, rest);
    assert Run(s, rest) == Run(t, []) == t;
  }

  /**
   A full session over a batch of twelve: opening the fourth card shows both
   buttons, and a search that matches nobody empties the view and closes the modal.
   */
  lemma OpenThenSearchNothing(users: seq<User>, text: string)
    requires |users| == 12
    requires Normalise(text) != []
    requires forall i :: 0 <= i < |users| ==> !Matches(users[i], Normalise(text))
    ensures var shown := HandleCardClick(Loaded(users), Card(3));
            && shown.modalOpen && shown.activeUser == Some(users[3])
            && ModalControls(shown) == Controls(true, true)
            && ActiveView(ExecuteSearch(shown, text)) == []
            && !ExecuteSearch(shown, text).modalOpen
  {
    var shown := HandleCardClick(Loaded(users), Card(3));
    SearchWithoutMatchesIsEmpty(shown, text);
  }

}
