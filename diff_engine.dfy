/** The backend's manifest builder: pairs consecutive revisions and records
    the diff between their texts. The diff itself (the diff library's
    `diff_main` followed by `diff_cleanupSemantic`) is a parameter `diff`
    about which nothing is assumed. */
module DiffEngine {
  import opened Wrappers
  import opened Manifest

  /** The error raised for a missing or empty revision list. */
  const NO_REVISIONS: string := "No revisions provided"
  /** The author recorded when the revision has no usable display name. */
  const UNKNOWN_AUTHOR: string := "Unknown"

  datatype User = User(displayName: Option<string>)

  /** A revision as the document store lists it; `modifiedTime` is taken as an
      integer. */
  datatype Revision = Revision(id: string, modifiedTime: int, lastModifyingUser: Option<User>, text: Option<string>)

  /** `rev.text || ""` */
  function TextOf(r: Revision): string
  {
    if r.text.Some? then r.text.value else ""
  }

  /** `rev.lastModifyingUser?.displayName || "Unknown"`: an absent user, an
      absent name and the empty name (which is falsy) all give the fallback. */
  function AuthorOf(r: Revision): string
  {
    if r.lastModifyingUser.Some? && r.lastModifyingUser.value.displayName.Some?
       && r.lastModifyingUser.value.displayName.value != ""
    then r.lastModifyingUser.value.displayName.value
    else UNKNOWN_AUTHOR
  }

  /** The delta recorded for revision `curr`, whose predecessor is `prev`. */
  function DeltaFor(diff: (string, string) -> seq<Op>, prev: Revision, curr: Revision): Delta
  {
    Delta(curr.id, curr.modifiedTime, AuthorOf(curr), diff(TextOf(prev), TextOf(curr)))
  }

  /** One delta per consecutive pair of revisions, in order. */
  function DeltasFrom(diff: (string, string) -> seq<Op>, revs: seq<Revision>): seq<Delta>
    decreases |revs|
  {
    if |revs| < 2 then [] else [DeltaFor(diff, revs[0], revs[1])] + DeltasFrom(diff, revs[1..])
  }

  /** The manifest for `revisions`, or the error for a missing or empty list. */
  function ManifestOf(diff: (string, string) -> seq<Op>, fileId: string, revisions: Option<seq<Revision>>)
    : Result<DeltaManifest, string>
  {
    if revisions.None? || |revisions.value| == 0 then Failure(NO_REVISIONS)
    else
      var revs := revisions.value;
      Success(DeltaManifest(fileId, |revs|, Some(TextOf(revs[0])), DeltasFrom(diff, revs)))
  }

  /** Delta i-1 belongs to revision i: its id, its time, its author and the
      diff from revision i-1's text to revision i's. */
  lemma {:induction false} DeltasFromIndex(diff: (string, string) -> seq<Op>, revs: seq<Revision>)
    ensures |DeltasFrom(diff, revs)| == (if |revs| == 0 then 0 else |revs| - 1)
    ensures forall i :: 1 <= i < |revs| ==> DeltasFrom(diff, revs)[i - 1] == DeltaFor(diff, revs[i - 1], revs[i])
    decreases |revs|
  {
    if |revs| >= 2 {
      DeltasFromIndex(diff, revs[1..]);
      forall i | 2 <= i < |revs|
        ensures DeltasFrom(diff, revs)[i - 1] == DeltaFor(diff, revs[i - 1], revs[i])
      {
        assert DeltasFrom(diff, revs)[i - 1] == DeltasFrom(diff, revs[1..])[i - 2];
        assert revs[1..][i - 2] == revs[i - 1] && revs[1..][i - 1] == revs[i];
      }
    }
  }

  /** What a manifest says about its revisions: an error exactly for a missing
      or empty list; otherwise the file id passes through, the base text is the
      first revision's text (or ""), there is one delta fewer than revisions,
      and delta i-1 carries revision i's id, time and author (or "Unknown") and
      the diff between the texts of revisions i-1 and i. */
  lemma ManifestShape(diff: (string, string) -> seq<Op>, fileId: string, revisions: Option<seq<Revision>>)
    ensures ManifestOf(diff, fileId, revisions).Failure? <==> revisions.None? || |revisions.value| == 0
    ensures ManifestOf(diff, fileId, revisions).Failure? ==> ManifestOf(diff, fileId, revisions).error == NO_REVISIONS
    ensures ManifestOf(diff, fileId, revisions).Success? ==>
      var m, revs := ManifestOf(diff, fileId, revisions).value, revisions.value;
      && m.fileId == fileId
      && m.totalRevisions == |revs|
      && m.baseText == Some(if revs[0].text.Some? then revs[0].text.value else "")
      && |m.deltas| == |revs| - 1
      && forall i :: 1 <= i < |revs| ==>
           && m.deltas[i - 1].revId == revs[i].id
           && m.deltas[i - 1].timestamp == revs[i].modifiedTime
           && m.deltas[i - 1].author == AuthorOf(revs[i])
           && m.deltas[i - 1].ops == diff(TextOf(revs[i - 1]), TextOf(revs[i]))
  {
    if revisions.Some? && |revisions.value| > 0 {
      var revs := revisions.value;
      var m := DeltaManifest(fileId, |revs|, Some(TextOf(revs[0])), DeltasFrom(diff, revs));
      assert ManifestOf(diff, fileId, revisions) == Success(m);
      DeltasFromIndex(diff, revs);
      forall i | 1 <= i < |revs|
        ensures && m.deltas[i - 1].revId == revs[i].id
                && m.deltas[i - 1].timestamp == revs[i].modifiedTime
                && m.deltas[i - 1].author == AuthorOf(revs[i])
                && m.deltas[i - 1].ops == diff(TextOf(revs[i - 1]), TextOf(revs[i]))
      {
        assert m.deltas[i - 1] == DeltaFor(diff, revs[i - 1], revs[i]);
      }
    }
  }

  /** The recorded author is the display name when there is a non-empty one,
      and "Unknown" otherwise (an absent user, an absent name, or the empty
      name); it is never empty. */
  lemma AuthorFallback(r: Revision)
    ensures r.lastModifyingUser.Some? && r.lastModifyingUser.value.displayName.Some?
            && r.lastModifyingUser.value.displayName.value != ""
            ==> AuthorOf(r) == r.lastModifyingUser.value.displayName.value
    ensures !(r.lastModifyingUser.Some? && r.lastModifyingUser.value.displayName.Some?
              && r.lastModifyingUser.value.displayName.value != "")
            ==> AuthorOf(r) == "Unknown"
    ensures AuthorOf(r) != ""
  {
  }

  /** Three revisions "Hello", "Hello World", "Hello World!" give a manifest of
      three revisions, two deltas and base text "Hello", whatever the diff. */
  lemma ThreeRevisionsExample(diff: (string, string) -> seq<Op>)
    ensures var revs := [Revision("1", 0, Some(User(Some("Alice"))), Some("Hello")),
                         Revision("2", 60000, Some(User(Some("Alice"))), Some("Hello World")),
                         Revision("3", 120000, Some(User(Some("Bob"))), Some("Hello World!"))];
      var r := ManifestOf(diff, "file123", Some(revs));
      r.Success? && r.value.totalRevisions == 3 && |r.value.deltas| == 2 && r.value.baseText == Some("Hello")
      && r.value.deltas[1].author == "Bob"
  {
    var revs := [Revision("1", 0, Some(User(Some("Alice"))), Some("Hello")),
                 Revision("2", 60000, Some(User(Some("Alice"))), Some("Hello World")),
                 Revision("3", 120000, Some(User(Some("Bob"))), Some("Hello World!"))];
    DeltasFromIndex(diff, revs);
  }

  /** The builder's loop: for each revision after the first, push the delta
      from its predecessor. */
  method ComputeManifest(diff: (string, string) -> seq<Op>, fileId: string, revisions: Option<seq<Revision>>)
    returns (r: Result<DeltaManifest, string>)
    ensures r == ManifestOf(diff, fileId, revisions)
    ensures r.Failure? <==> revisions.None? || |revisions.value| == 0
    ensures r.Success? ==> |r.value.deltas| == |revisions.value| - 1 && r.value.totalRevisions == |revisions.value|
  {
    if revisions.None? || |revisions.value| == 0 {
      return Failure(NO_REVISIONS);
    }
    var revs := revisions.value;
    var baseText := TextOf(revs[0]);
    var deltas: seq<Delta> := [];
    for i := 1 to |revs|
      invariant |deltas| == i - 1
      invariant forall j :: 1 <= j < i ==> deltas[j - 1] == DeltaFor(diff, revs[j - 1], revs[j])
    {
      var prevRev := revs[i - 1];
      var currRev := revs[i];
      var prevText := TextOf(prevRev);
      var currText := TextOf(currRev);
      var diffs := diff(prevText, currText);
      deltas := deltas + [Delta(currRev.id, currRev.modifiedTime, AuthorOf(currRev), diffs)];
    }
    DeltasFromIndex(diff, revs);
    forall k | 0 <= k < |deltas| ensures deltas[k] == DeltasFrom(diff, revs)[k] {
      assert deltas[(k + 1) - 1] == DeltaFor(diff, revs[(k + 1) - 1], revs[k + 1]);
    }
    assert deltas == DeltasFrom(diff, revs);
    r := Success(DeltaManifest(fileId, |revs|, Some(baseText), deltas));
  }
}
