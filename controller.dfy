/** The selection and visibility controller held in the `App` component's
    state: the current user, the history of displaced users and the two
    panel flags, with one method per event that changes them. */
module Controller {
  import opened Users
  import opened Search

  /** The history after a selection: the displaced current user, if any,
      is appended. */
  function Archive(current: Option<User>, history: seq<User>): (r: seq<User>)
    ensures history <= r
    ensures current.None? ==> r == history
    ensures current.Some? ==> |r| == |history| + 1 && r[|history|] == current.value
  {
    if current.Some? then history + [current.value] else history
  }

  class App {
    /** The list delivered by the fetch. */
    var users: seq<User>
    /** The text in the search field. */
    var searchQuery: string
    var currentUser: Option<User>
    var previousUsers: seq<User>
    var showCurrent: bool
    var showPrevious: bool

    /** Every user selected so far, in order of selection. */
    ghost var selections: seq<User>

    /** The current user is the last selection, the history holds all the
        earlier ones in order (duplicates included), and a panel is only
        shown when it has something to show. */
    ghost predicate Valid()
      reads this
    {
      (if selections == []
       then currentUser.None? && previousUsers == []
       else currentUser == Some(selections[|selections| - 1])
            && previousUsers == selections[..|selections| - 1])
      && (showCurrent ==> currentUser.Some?)
      && (showPrevious ==> previousUsers != [])
    }

    /** The users listed for the present query. */
    function FilteredUsers(): (r: seq<User>)
      reads this
      ensures forall u :: u in r <==> u in users && Matches(u, searchQuery)
    {
      Filter(users, searchQuery)
    }

    /** The state on mount: no users yet, an empty query, no selection, an
        empty history and both panels hidden. */
    constructor ()
      ensures Valid()
      ensures users == [] && searchQuery == ""
      ensures currentUser.None? && previousUsers == []
      ensures !showCurrent && !showPrevious
      ensures selections == []
    {
      users := [];
      searchQuery := "";
      currentUser := None;
      previousUsers := [];
      showCurrent := false;
      showPrevious := false;
      selections := [];
    }

    /** The fetched list replaces the stored one. */
    method ReceiveUsers(fetched: seq<User>)
      requires Valid()
      modifies this`users
      ensures Valid()
      ensures users == fetched
    {
      users := fetched;
    }

    /** A keystroke in the search field replaces the query. */
    method SetSearchQuery(text: string)
      requires Valid()
      modifies this`searchQuery
      ensures Valid()
      ensures searchQuery == text
    {
      searchQuery := text;
    }

    /** `handleSelectUser`: the old current user, when there is one, is
        appended to the history, and `user` becomes current. Reselecting the
        current user appends it again. */
    method SelectUser(user: User)
      requires Valid()
      modifies this`currentUser, this`previousUsers, this`selections
      ensures Valid()
      ensures currentUser == Some(user)
      ensures previousUsers == Archive(old(currentUser), old(previousUsers))
      ensures old(currentUser).Some? ==> previousUsers == old(previousUsers) + [old(currentUser).value]
      ensures old(currentUser).None? ==> previousUsers == old(previousUsers)
      ensures old(previousUsers) <= previousUsers
      ensures selections == old(selections) + [user]
      ensures forall item :: IsSelected(currentUser, item) <==> item.id == user.id
    {
      previousUsers := Archive(currentUser, previousUsers);
      currentUser := Some(user);
      selections := selections + [user];
      assert selections[..|selections| - 1] == old(selections);
    }

    /** `handleInputKeyPress`: on Enter, the first user of the full list whose
        name equals the query up to case is selected; any other key, or no
        such user, changes nothing. */
    method EnterCommit(key: string)
      requires Valid()
      modifies this`currentUser, this`previousUsers, this`selections
      ensures Valid()
      ensures old(previousUsers) <= previousUsers
      ensures old(currentUser).Some? ==> currentUser.Some?
      ensures key == "Enter" && FindExact(users, searchQuery).Some? ==>
                currentUser == FindExact(users, searchQuery)
                && previousUsers == Archive(old(currentUser), old(previousUsers))
                && selections == old(selections) + [FindExact(users, searchQuery).value]
      ensures key != "Enter" || FindExact(users, searchQuery).None? ==>
                currentUser == old(currentUser)
                && previousUsers == old(previousUsers)
                && selections == old(selections)
    {
      if key == "Enter" {
        var found := FindExact(users, searchQuery);
        if found.Some? {
          SelectUser(found.value);
        }
      }
    }

    /** The Current button: flips `showCurrent` when there is a current user,
        otherwise does nothing. */
    method ToggleCurrent()
      requires Valid()
      modifies this`showCurrent
      ensures Valid()
      ensures showCurrent == if currentUser.Some? then !old(showCurrent) else old(showCurrent)
      ensures currentUser.None? ==> !showCurrent
    {
      if currentUser.Some? {
        showCurrent := !showCurrent;
      }
    }

    /** The Previous button: flips `showPrevious` when the history is not
        empty, otherwise does nothing. */
    method TogglePrevious()
      requires Valid()
      modifies this`showPrevious
      ensures Valid()
      ensures showPrevious == if previousUsers != [] then !old(showPrevious) else old(showPrevious)
      ensures previousUsers == [] ==> !showPrevious
    {
      if previousUsers != [] {
        showPrevious := !showPrevious;
      }
    }

    /** `handleClickOutside`: a pointer-down outside the tracked list hides
        both panels; one inside changes nothing. */
    method OutsideClick(inside: bool)
      requires Valid()
      modifies this`showCurrent, this`showPrevious
      ensures Valid()
      ensures !inside ==> !showCurrent && !showPrevious
      ensures inside ==> showCurrent == old(showCurrent) && showPrevious == old(showPrevious)
    {
      if !inside {
        showCurrent := false;
        showPrevious := false;
      }
    }
  }

  /** A directory of three users: Ann (1), Bob (2) and Anna (3). */
  function Directory(): seq<User>
  {
    [User(1, "Ann"), User(2, "Bob"), User(3, "Anna")]
  }

  /** Query "an" lists Ann and Anna, not Bob. */
  lemma DirectoryListing()
    ensures Filter(Directory(), "an") == [User(1, "Ann"), User(3, "Anna")]
  {
    var ann, bob, anna := User(1, "Ann"), User(2, "Bob"), User(3, "Anna");
    assert Lower("an") == "an" && Lower("Ann") == "ann" && Lower("Bob") == "bob" && Lower("Anna") == "anna";
    assert Contains("ann", "an") && Contains("anna", "an");
    assert !Contains("bob", "an") by {
      assert !Contains("", "an");
      assert !Contains("b", "an");
      assert !Contains("ob", "an");
    }
    assert Matches(ann, "an") && !Matches(bob, "an") && Matches(anna, "an");
    assert Directory()[1..] == [bob, anna] && [bob, anna][1..] == [anna];
    assert Filter([anna], "an") == [anna];
    assert Filter([bob, anna], "an") == [anna];
  }

  /** Enter with query "ANN" finds Ann, the only name equal to it up to case. */
  lemma DirectoryLookup()
    ensures FindExact(Directory(), "ANN") == Some(User(1, "Ann"))
  {
  }

  /** Ann, Bob, Anna; query "an" lists Ann and Anna; select Ann then Bob;
      open Previous, which shows Ann; click outside, which hides both panels. */
  method ScenarioBrowse()
  {
    var ann, bob := User(1, "Ann"), User(2, "Bob");
    var app := new App();
    app.ReceiveUsers(Directory());
    app.SetSearchQuery("an");
    DirectoryListing();
    assert app.FilteredUsers() == [ann, User(3, "Anna")];

    app.SelectUser(ann);
    app.SelectUser(bob);
    assert app.currentUser == Some(bob) && app.previousUsers == [ann];

    app.TogglePrevious();
    assert app.showPrevious;
    app.OutsideClick(false);
    assert !app.showCurrent && !app.showPrevious;
  }

  /** Reselecting the current user archives it once more, and Enter with a
      query equal to a name up to case selects that user. */
  method ScenarioReselect()
  {
    var ann, bob := User(1, "Ann"), User(2, "Bob");
    var app := new App();
    app.ReceiveUsers(Directory());
    app.SelectUser(bob);
    app.SelectUser(bob);
    assert app.previousUsers == [bob] && app.currentUser == Some(bob);

    app.SetSearchQuery("ANN");
    DirectoryLookup();
    app.EnterCommit("Enter");
    assert app.currentUser == Some(ann) && app.previousUsers == [bob, bob];
  }
}
