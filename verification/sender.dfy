/**
  What the loop takes from an incoming message before anything else: the name
  to address the sender by, and the message text cut to the prompt limit.
 */
module Sender {
  import opened Wrappers

  /** The sender of a message, as the chat transport describes it. */
  datatype User = User(userName: string, firstName: string, lastName: string)

  /** The longest message text passed on (`promptLimit`). */
  const PromptLimit: int := 400

  const Unknown: string := "unknown"

  /** The name parts in the order the loop visits them. */
  function NameParts(u: User): seq<string>
  {
    [u.userName, u.firstName, u.lastName]
  }

  /** The last non-empty element of `parts`, or `fallback` when there is none. */
  function LastNonEmpty(parts: seq<string>, fallback: string): (r: string)
    ensures r == fallback || (r in parts && r != "")
    ensures (forall i :: 0 <= i < |parts| ==> parts[i] == "") ==> r == fallback
  {
    if |parts| == 0 then fallback
    else if parts[|parts| - 1] != "" then parts[|parts| - 1]
    else LastNonEmpty(parts[..|parts| - 1], fallback)
  }

  /** A non-empty part with only empty parts after it is the result: the last non-empty part wins. */
  lemma {:induction false} LastNonEmptyAt(parts: seq<string>, fallback: string, k: nat)
    requires k < |parts| && parts[k] != ""
    requires forall j :: k < j < |parts| ==> parts[j] == ""
    ensures LastNonEmpty(parts, fallback) == parts[k]
    decreases |parts|
  {
    var n := |parts|;
    if k < n - 1 {
      assert parts[n - 1] == "";
      var init := parts[..n - 1];
      assert init[k] == parts[k];
      LastNonEmptyAt(init, fallback, k);
    }
  }

  /**
    The address used for the sender: the last of user name, first name and
    last name that is not empty (each one found overwrites the previous), or
    "unknown" when all are empty or there is no sender.
   */
  function UserName(from: Option<User>): (r: string)
    ensures from.None? ==> r == Unknown
    ensures from.Some? && from.value.lastName != "" ==> r == from.value.lastName
    ensures from.Some? && from.value.lastName == "" && from.value.firstName != "" ==> r == from.value.firstName
    ensures from.Some? && from.value.lastName == "" && from.value.firstName == "" ==>
      r == if from.value.userName != "" then from.value.userName else Unknown
  {
    match from
    case None => Unknown
    case Some(u) =>
      var parts := NameParts(u);
      var two := [u.userName, u.firstName];
      assert parts[..2] == two && two[..1] == [u.userName] && [u.userName][..0] == [];
      assert LastNonEmpty([u.userName], Unknown) == if u.userName != "" then u.userName else Unknown;
      assert LastNonEmpty(two, Unknown) ==
        if u.firstName != "" then u.firstName else LastNonEmpty([u.userName], Unknown);
      LastNonEmpty(parts, Unknown)
  }

  /** The fallback loop as written: visit each part and let a non-empty one overwrite the name. */
  method ResolveUserName(from: Option<User>) returns (name: string)
    ensures name == UserName(from)
  {
    name := Unknown;
    if from.Some? {
      var parts := NameParts(from.value);
      var i := 0;
      while i < |parts|
        invariant 0 <= i <= |parts|
        invariant name == LastNonEmpty(parts[..i], Unknown)
      {
        assert parts[..i + 1][..i] == parts[..i];
        if parts[i] != "" {
          name := parts[i];
        }
        i := i + 1;
      }
      assert parts[..|parts|] == parts;
    }
  }

  /** The message text cut to its first `limit` characters when longer. */
  function Truncate(text: string, limit: nat): (r: string)
    ensures r <= text
    ensures |r| == if |text| > limit then limit else |text|
  {
    if |text| > limit then text[..limit] else text
  }

  /** Cutting is idempotent, and the text is untouched exactly when it fits. */
  lemma TruncateFacts(text: string, limit: nat)
    ensures Truncate(Truncate(text, limit), limit) == Truncate(text, limit)
    ensures Truncate(text, limit) == text <==> |text| <= limit
    ensures Truncate(text, limit) == "" <==> text == "" || limit == 0
  {
  }
}
