/** The dashboard view of the frontend (frontend/src/Components/Dashboard.jsx):
    the helpers that format a user's name and resolve a profile picture, and
    the component state that the post form and the profile dropdown change.
    Network calls are not modelled; their outcome is an input. */
module Dashboard {
  import opened Wrappers
  import opened JsString

  // ---------------------------------------------------------------------
  // capitalizeName

  /** `capitalizeName`: the first character upper-cased and the rest
      lower-cased, or '' for a missing or empty name. */
  function CapitalizeName(name: Option<string>): (r: string)
    ensures r == [] <==> name.None? || name.value == []
    ensures name.Some? && name.value != [] ==>
      |r| == |name.value| && r[0] == UpperChar(name.value[0]) &&
      forall i :: 1 <= i < |r| ==> r[i] == LowerChar(name.value[i])
  {
    match name
    case None => []
    case Some(s) => if s == [] then [] else [UpperChar(s[0])] + ToLowerCase(s[1..])
  }

  /** A capitalized name: no lower-case letter first, no upper-case letter
      after that. */
  predicate IsCapitalized(s: string) {
    s == [] || (!IsLower(s[0]) && forall i :: 1 <= i < |s| ==> !IsUpper(s[i]))
  }

  /** What `capitalizeName` returns is capitalized. */
  lemma CapitalizeNameIsCapitalized(name: Option<string>)
    ensures IsCapitalized(CapitalizeName(name))
  {
  }

  /** A name is left as it is exactly when it is already capitalized. */
  lemma CapitalizeNameFixedPoints(s: string)
    ensures CapitalizeName(Some(s)) == s <==> IsCapitalized(s)
  {
    var r := CapitalizeName(Some(s));
    if IsCapitalized(s) && s != [] {
      assert r[0] == s[0];
      forall i | 1 <= i < |s| ensures r[i] == s[i] {
        assert !IsUpper(s[i]);
      }
    }
  }

  /** Capitalizing twice is capitalizing once. */
  lemma CapitalizeNameIdempotent(name: Option<string>)
    ensures CapitalizeName(Some(CapitalizeName(name))) == CapitalizeName(name)
  {
    CapitalizeNameIsCapitalized(name);
    CapitalizeNameFixedPoints(CapitalizeName(name));
  }

  /** The profile dropdown shows `capitalizeName(firstName + ' ' + lastName)`,
      which capitalizes only the first name: the last name's initial comes out
      lower-case ("first last" becomes "First last"). */
  lemma CapitalizeFullName(first: string, last: string)
    requires first != [] && last != []
    ensures var r := CapitalizeName(Some(first + " " + last));
      |r| == |first| + 1 + |last| && r[0] == UpperChar(first[0]) &&
      r[|first|] == ' ' && r[|first| + 1] == LowerChar(last[0])
  {
    var s := first + " " + last;
    assert s[0] == first[0] && s[|first|] == ' ' && s[|first| + 1] == last[0];
  }

  /** The full name as the welcome line shows it, each name capitalized on its
      own: both initials upper-case, every other letter lower-case. */
  function DisplayName(first: string, last: string): (r: string)
    ensures |r| == |first| + 1 + |last| && r[|first|] == ' '
    ensures first != [] ==> r[0] == UpperChar(first[0])
    ensures last != [] ==> r[|first| + 1] == UpperChar(last[0])
    ensures forall i :: 1 <= i < |first| ==> r[i] == LowerChar(first[i])
    ensures forall i :: 1 <= i < |last| ==> r[|first| + 1 + i] == LowerChar(last[i])
  {
    DisplayNameFacts(first, last);
    CapitalizeName(Some(first)) + " " + CapitalizeName(Some(last))
  }

  lemma DisplayNameFacts(first: string, last: string)
    ensures var a := CapitalizeName(Some(first)); var b := CapitalizeName(Some(last));
      var r := a + " " + b;
      |r| == |first| + 1 + |last| && r[|first|] == ' ' &&
      (forall i :: 0 <= i < |first| ==> r[i] == a[i]) &&
      (forall i :: 0 <= i < |last| ==> r[|first| + 1 + i] == b[i])
  {
    var a := CapitalizeName(Some(first));
    var b := CapitalizeName(Some(last));
    var r := a + " " + b;
    forall i | 0 <= i < |last| ensures r[|first| + 1 + i] == b[i] {
      assert r[|first| + 1 + i] == (" " + b)[1 + i];
    }
  }

  // ---------------------------------------------------------------------
  // getProfilePicUrl

  const DefaultAvatar: string := "/default-avatar.jpg"

  /** `getProfilePicUrl`: the default avatar for a missing or empty path, a
      path starting with `http` as it is, and any other path appended to the
      backend URL. */
  function ProfilePicUrl(backendUrl: string, picPath: Option<string>): (url: string)
    ensures url != []
    ensures picPath.None? || picPath.value == [] ==> url == DefaultAvatar
    ensures picPath.Some? && "http" <= picPath.value ==> url == picPath.value
    ensures picPath.Some? && picPath.value != [] && !("http" <= picPath.value) ==>
      backendUrl <= url && |url| == |backendUrl| + |picPath.value| &&
      url[|backendUrl|..] == picPath.value
  {
    match picPath
    case None => DefaultAvatar
    case Some(p) =>
      if p == [] then DefaultAvatar
      else if "http" <= p then p
      else backendUrl + p
  }

  /** With an `http…` backend URL every stored picture path resolves to an
      `http…` URL, and resolving that URL again leaves it unchanged. */
  lemma ProfilePicUrlResolvesOnce(backendUrl: string, picPath: string)
    requires "http" <= backendUrl && picPath != []
    ensures "http" <= ProfilePicUrl(backendUrl, Some(picPath))
    ensures ProfilePicUrl(backendUrl, Some(ProfilePicUrl(backendUrl, Some(picPath))))
      == ProfilePicUrl(backendUrl, Some(picPath))
  {
    var url := ProfilePicUrl(backendUrl, Some(picPath));
    if !("http" <= picPath) {
      assert url[..4] == backendUrl[..4];
    }
  }

  // ---------------------------------------------------------------------
  // handlePostSubmit and toggleDropdown

  /** A string with a character that `trim` keeps. */
  predicate HasVisibleChar(s: string) {
    exists i :: 0 <= i < |s| && !IsWhitespace(s[i])
  }

  /** The guard of `handlePostSubmit`: neither the title nor the content is
      empty once trimmed, i.e. both hold a non-whitespace character. */
  function CanSubmit(title: string, content: string): (ok: bool)
    ensures ok <==> HasVisibleChar(title) && HasVisibleChar(content)
  {
    Trim(title) != [] && Trim(content) != []
  }

  /** A post as the backend returns it; the dashboard only shows it. */
  datatype Post = Post(id: string, authorFirstName: string, authorLastName: string,
                       content: string, createdAt: string)

  /** The JSON body of the `POST /post` request. */
  datatype PostRequest = PostRequest(title: string, content: string)

  /** How the `POST /post` request ended, as far as the handler tells
      outcomes apart: an ok JSON response carrying the new post; a JSON
      response that is not ok, with its optional `message`; or a failure
      (the fetch threw, the response was not JSON, or its body did not parse). */
  datatype PostResponse =
    | Created(post: Post)
    | Declined(message: Option<string>)
    | Failed

  const RequiredAlert: string := "Title and content are required."
  const FailedAlert: string := "Failed to post"
  const ErrorAlert: string := "An error occurred while posting"

  /** `data.message || 'Failed to post'`: the server's message unless it is
      missing or empty. */
  function DeclinedAlert(message: Option<string>): (text: string)
    ensures text != []
    ensures message.Some? && message.value != [] ==> text == message.value
    ensures message.None? || message.value == [] ==> text == FailedAlert
  {
    match message
    case Some(m) => if m != [] then m else FailedAlert
    case None => FailedAlert
  }

  /** The dashboard component's state that its handlers change. */
  class DashboardState {
    var posts: seq<Post>
    var newPostTitle: string
    var newPostContent: string
    var dropdownOpen: bool

    /** The initial `useState` values. */
    constructor ()
      ensures posts == [] && newPostTitle == "" && newPostContent == "" && !dropdownOpen
    {
      posts := [];
      newPostTitle := "";
      newPostContent := "";
      dropdownOpen := false;
    }

    /** `toggleDropdown`: flips the dropdown and nothing else. */
    method ToggleDropdown()
      modifies this
      ensures dropdownOpen == !old(dropdownOpen)
      ensures posts == old(posts) && newPostTitle == old(newPostTitle)
      ensures newPostContent == old(newPostContent)
    {
      dropdownOpen := !dropdownOpen;
    }

    /** The title input's `onChange`. */
    method EditTitle(value: string)
      modifies this
      ensures newPostTitle == value
      ensures posts == old(posts) && newPostContent == old(newPostContent)
      ensures dropdownOpen == old(dropdownOpen)
    {
      newPostTitle := value;
    }

    /** The content textarea's `onChange`. */
    method EditContent(value: string)
      modifies this
      ensures newPostContent == value
      ensures posts == old(posts) && newPostTitle == old(newPostTitle)
      ensures dropdownOpen == old(dropdownOpen)
    {
      newPostContent := value;
    }

    /** `handlePostSubmit`, with the server's answer as `response`. A blank
        title or content is refused before any request and changes nothing.
        Otherwise the current title and content are sent; a created post is
        put in front of the list and the inputs are cleared, and any other
        answer changes nothing but raises an alert. */
    method HandlePostSubmit(response: PostResponse)
      returns (request: Option<PostRequest>, alert: Option<string>)
      modifies this
      ensures dropdownOpen == old(dropdownOpen)
      ensures !CanSubmit(old(newPostTitle), old(newPostContent)) ==>
        request == None && alert == Some(RequiredAlert) &&
        posts == old(posts) && newPostTitle == old(newPostTitle) &&
        newPostContent == old(newPostContent)
      ensures CanSubmit(old(newPostTitle), old(newPostContent)) ==>
        request == Some(PostRequest(old(newPostTitle), old(newPostContent)))
      ensures CanSubmit(old(newPostTitle), old(newPostContent)) && response.Created? ==>
        alert == None && posts == [response.post] + old(posts) &&
        newPostTitle == "" && newPostContent == ""
      ensures CanSubmit(old(newPostTitle), old(newPostContent)) && !response.Created? ==>
        alert == Some(if response.Declined? then DeclinedAlert(response.message) else ErrorAlert) &&
        posts == old(posts) && newPostTitle == old(newPostTitle) &&
        newPostContent == old(newPostContent)
    {
      if !CanSubmit(newPostTitle, newPostContent) {
        return None, Some(RequiredAlert);
      }
      request := Some(PostRequest(newPostTitle, newPostContent));
      match response
      case Created(post) =>
        posts := [post] + posts;
        newPostTitle := "";
        newPostContent := "";
        alert := None;
      case Declined(message) =>
        alert := Some(DeclinedAlert(message));
      case Failed =>
        alert := Some(ErrorAlert);
    }
  }

  /** Toggling the dropdown twice restores the whole state. */
  method ToggleDropdownTwice(d: DashboardState)
    modifies d
    ensures d.dropdownOpen == old(d.dropdownOpen) && d.posts == old(d.posts)
    ensures d.newPostTitle == old(d.newPostTitle) && d.newPostContent == old(d.newPostContent)
  {
    d.ToggleDropdown();
    d.ToggleDropdown();
  }
}
