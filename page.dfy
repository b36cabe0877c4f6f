/**
 * The inbox page of public/mail.js: the browser's cache of received
 * messages (a newest-first list without repeated ids, kept in localStorage)
 * with the set of ids already seen, the refresh that merges the server's
 * listing into it, and the body shown for a cached message.
 */
module MailPage {
  import opened Wrappers
  import opened MailData
  import opened PageText
  import MailServer

  // ---------------------------------------------------------------------------
  // The cache

  /** A cached message: the full message fetched from the server, or its inbox preview. */
  datatype CachedEmail = Full(message: Message) | Brief(preview: Preview) {
    function Id(): string {
      match this
      case Full(m) => m.id
      case Brief(p) => p.id
    }
  }

  /** The localStorage entry of this inbox: missing, not parseable, or a stored list. */
  datatype Slot = Absent | Unreadable | Saved(emails: seq<CachedEmail>)

  /** `emails.find(e => e.id === id)` finds something. */
  predicate HasId(emails: seq<CachedEmail>, id: string) {
    exists i :: 0 <= i < |emails| && emails[i].Id() == id
  }

  /** No two cached messages share an id. */
  predicate DistinctIds(emails: seq<CachedEmail>) {
    forall i, j :: 0 <= i < j < |emails| ==> emails[i].Id() != emails[j].Id()
  }

  function IdsOf(emails: seq<CachedEmail>): set<string> {
    set i | 0 <= i < |emails| :: emails[i].Id()
  }

  /** Prepending a message whose id is new keeps the ids distinct. */
  lemma PrependKeepsDistinct(e: CachedEmail, emails: seq<CachedEmail>)
    requires DistinctIds(emails) && !HasId(emails, e.Id())
    ensures DistinctIds([e] + emails)
  {
    var r := [e] + emails;
    forall i, j | 0 <= i < j < |r| ensures r[i].Id() != r[j].Id() {
      if i == 0 {
        assert r[j] == emails[j - 1];
      }
    }
  }

  /** A message present in a list is present in any list that ends with it. */
  lemma HasIdInSuffix(emails: seq<CachedEmail>, pre: seq<CachedEmail>, id: string)
    requires HasId(emails, id)
    ensures HasId(pre + emails, id)
  {
    var i :| 0 <= i < |emails| && emails[i].Id() == id;
    assert (pre + emails)[|pre| + i] == emails[i];
  }

  // ---------------------------------------------------------------------------
  // The refresh merge, as a function of the cache contents

  /** What one refresh step stores for a listed preview: the full message when its fetch succeeded, else the preview. */
  function Chosen(p: Preview, detail: Option<Message>): (e: CachedEmail)
    ensures detail.Some? ==> e == Full(detail.value)
    ensures detail.None? ==> e == Brief(p)
  {
    if detail.Some? then Full(detail.value) else Brief(p)
  }

  /** The cached list, the seen ids (`lastEmailIds`) and the `hasNewEmails` flag during a refresh. */
  datatype MergeState = MergeState(emails: seq<CachedEmail>, seen: set<string>, hasNew: bool)

  /**
   * One iteration of the refresh loop: a preview whose id was seen is
   * skipped; otherwise the chosen entry is added unless its id is cached,
   * and only a successful add records the preview's id and sets the flag.
   * So a step changes the state exactly when the preview is unseen and its
   * chosen entry is not cached, and then it puts that entry in front,
   * records the preview id and raises the flag.
   */
  function MergeStep(st: MergeState, p: Preview, detail: Option<Message>): (r: MergeState)
    ensures r != st <==> p.id !in st.seen && !HasId(st.emails, Chosen(p, detail).Id())
    ensures r != st ==> r == MergeState([Chosen(p, detail)] + st.emails, st.seen + {p.id}, true)
  {
    if p.id in st.seen then st
    else
      var e := Chosen(p, detail);
      if HasId(st.emails, e.Id()) then st
      else MergeState([e] + st.emails, st.seen + {p.id}, true)
  }

  /** The state after the refresh loop has visited `previews` in order. */
  function MergeAll(st: MergeState, previews: seq<Preview>, details: seq<Option<Message>>): (r: MergeState)
    requires |details| == |previews|
    ensures |st.emails| <= |r.emails| <= |st.emails| + |previews|
    ensures st.seen <= r.seen
    ensures st.hasNew ==> r.hasNew
  {
    if previews == [] then st
    else
      var n := |previews| - 1;
      MergeStep(MergeAll(st, previews[..n], details[..n]), previews[n], details[n])
  }

  /**
   * A refresh only puts new messages in front of the cached list, at most
   * one per listed preview, and never loses a seen id.
   */
  lemma {:induction false} MergeGrowsAtFront(st: MergeState, previews: seq<Preview>, details: seq<Option<Message>>)
    requires |details| == |previews|
    ensures var r := MergeAll(st, previews, details);
      && |st.emails| <= |r.emails| <= |st.emails| + |previews|
      && r.emails[|r.emails| - |st.emails|..] == st.emails
      && st.seen <= r.seen
  {
    if previews != [] {
      var n := |previews| - 1;
      MergeGrowsAtFront(st, previews[..n], details[..n]);
      var mid := MergeAll(st, previews[..n], details[..n]);
      var r := MergeStep(mid, previews[n], details[n]);
      if r != mid {
        var k := |r.emails| - |st.emails|;
        assert r.emails[k..] == mid.emails[k - 1..];
      }
    }
  }

  /** `hasNewEmails` ends up true exactly when the refresh added a message to the cache. */
  lemma {:induction false} MergeFlagIffAdded(st: MergeState, previews: seq<Preview>, details: seq<Option<Message>>)
    requires |details| == |previews|
    ensures var r := MergeAll(st, previews, details);
      && |st.emails| <= |r.emails|
      && (r.hasNew <==> st.hasNew || |r.emails| > |st.emails|)
  {
    if previews != [] {
      var n := |previews| - 1;
      MergeFlagIffAdded(st, previews[..n], details[..n]);
    }
  }

  /** A refresh keeps the cache free of repeated ids. */
  lemma {:induction false} MergeKeepsDistinct(st: MergeState, previews: seq<Preview>, details: seq<Option<Message>>)
    requires |details| == |previews|
    requires DistinctIds(st.emails)
    ensures DistinctIds(MergeAll(st, previews, details).emails)
  {
    if previews != [] {
      var n := |previews| - 1;
      MergeKeepsDistinct(st, previews[..n], details[..n]);
      var mid := MergeAll(st, previews[..n], details[..n]);
      if previews[n].id !in mid.seen {
        var e := Chosen(previews[n], details[n]);
        if !HasId(mid.emails, e.Id()) {
          PrependKeepsDistinct(e, mid.emails);
        }
      }
    }
  }

  /**
   * When every fetched message carries the id of its preview, a refresh
   * loses nothing: afterwards every listed id was seen before or is in the
   * cache, and every newly seen id is in the cache.
   */
  lemma {:induction false} MergeCoversListing(st: MergeState, previews: seq<Preview>, details: seq<Option<Message>>)
    requires |details| == |previews|
    requires forall i :: 0 <= i < |details| && details[i].Some? ==> details[i].value.id == previews[i].id
    ensures var r := MergeAll(st, previews, details);
      && (forall id :: id in r.seen ==> id in st.seen || HasId(r.emails, id))
      && (forall i :: 0 <= i < |previews| ==> previews[i].id in st.seen || HasId(r.emails, previews[i].id))
  {
    if previews != [] {
      var n := |previews| - 1;
      MergeCoversListing(st, previews[..n], details[..n]);
      var mid := MergeAll(st, previews[..n], details[..n]);
      var r := MergeStep(mid, previews[n], details[n]);
      var e := Chosen(previews[n], details[n]);
      assert e.Id() == previews[n].id;
      if r != mid {
        assert r.emails == [e] + mid.emails;
        forall id | HasId(mid.emails, id) ensures HasId(r.emails, id) {
          HasIdInSuffix(mid.emails, [e], id);
        }
        assert r.emails[0].Id() == previews[n].id;
      }
      forall i | 0 <= i < |previews|
        ensures previews[i].id in st.seen || HasId(r.emails, previews[i].id)
      {
        if i < n {
          assert previews[..n][i] == previews[i];
        }
      }
    }
  }

  /**
   * Details fetched from the server's store carry the id they were fetched
   * by, because intake stores every message under its own id. So a refresh
   * against the store loses nothing, whichever detail fetches failed.
   */
  lemma StoreRefreshCoversListing(store: MailServer.MailStore, st: MergeState, previews: seq<Preview>, details: seq<Option<Message>>)
    requires store.IdsMatch()
    requires |details| == |previews|
    requires forall i :: 0 <= i < |details| && details[i].Some? ==> details[i] == store.Fetch(previews[i].id)
    ensures var r := MergeAll(st, previews, details);
      && (forall id :: id in r.seen ==> id in st.seen || HasId(r.emails, id))
      && (forall i :: 0 <= i < |previews| ==> previews[i].id in st.seen || HasId(r.emails, previews[i].id))
  {
    forall i | 0 <= i < |details| && details[i].Some?
      ensures details[i].value.id == previews[i].id
    {
      assert store.Fetch(previews[i].id).Some?;
    }
    MergeCoversListing(st, previews, details);
  }

  /** The page's inbox cache: the localStorage slot and the in-memory `lastEmailIds`. */
  class InboxCache {
    var slot: Slot
    var seen: set<string>

    /** The page starts with whatever localStorage holds and no seen ids. */
    constructor (stored: Slot)
      ensures slot == stored && seen == {}
    {
      slot := stored;
      seen := {};
    }

    /** `getLocalEmails`: the stored list, or empty when nothing is stored or it does not parse. */
    function LocalEmails(): (emails: seq<CachedEmail>)
      reads this
      ensures slot.Saved? ==> emails == slot.emails
      ensures !slot.Saved? ==> emails == []
    {
      if slot.Saved? then slot.emails else []
    }

    /**
     * `addEmailToLocal`: put `e` in front of the cached list and store it,
     * unless a cached message has the same id; report whether it was added.
     */
    method AddEmail(e: CachedEmail) returns (added: bool)
      modifies this`slot
      ensures added <==> !HasId(old(LocalEmails()), e.Id())
      ensures slot == if added then Saved([e] + old(LocalEmails())) else old(slot)
      ensures DistinctIds(old(LocalEmails())) ==> DistinctIds(LocalEmails())
    {
      var emails := LocalEmails();
      if !HasId(emails, e.Id()) {
        slot := Saved([e] + emails);
        added := true;
        if DistinctIds(emails) {
          PrependKeepsDistinct(e, emails);
        }
      } else {
        added := false;
      }
    }

    /** The `forEach` at the end of `displayLocalEmails`: every cached id joins the seen ids. */
    method RememberShown()
      modifies this`seen
      ensures seen == old(seen) + IdsOf(LocalEmails())
    {
      var emails := LocalEmails();
      for i := 0 to |emails|
        invariant seen == old(seen) + IdsOf(emails[..i])
      {
        assert IdsOf(emails[..i + 1]) == IdsOf(emails[..i]) + {emails[i].Id()} by {
          assert forall k :: 0 <= k < i ==> emails[..i + 1][k] == emails[..i][k];
        }
        seen := seen + {emails[i].Id()};
      }
      assert emails[..|emails|] == emails;
    }

    /**
     * The loop of `loadEmails` over the listed previews; `details[i]` is the
     * full message when fetching it succeeded. Returns `hasNewEmails`.
     */
    method Merge(previews: seq<Preview>, details: seq<Option<Message>>) returns (hasNew: bool)
      requires |details| == |previews|
      modifies this
      ensures var r := MergeAll(MergeState(old(LocalEmails()), old(seen), false), previews, details);
        LocalEmails() == r.emails && seen == r.seen && hasNew == r.hasNew
      ensures slot == if hasNew then Saved(LocalEmails()) else old(slot)
    {
      hasNew := false;
      for i := 0 to |previews|
        invariant var r := MergeAll(MergeState(old(LocalEmails()), old(seen), false), previews[..i], details[..i]);
          LocalEmails() == r.emails && seen == r.seen && hasNew == r.hasNew
        invariant slot == if hasNew then Saved(LocalEmails()) else old(slot)
      {
        assert previews[..i + 1][..i] == previews[..i];
        assert details[..i + 1][..i] == details[..i];
        var p := previews[i];
        if p.id !in seen {
          var added := AddEmail(Chosen(p, details[i]));
          if added {
            seen := seen + {p.id};
            hasNew := true;
          }
        }
      }
      assert previews[..|previews|] == previews;
      assert details[..|details|] == details;
    }

    /**
     * `loadEmails` after the listing request: `None` is a failed request,
     * after which the cached list is shown again; otherwise merge, and show
     * the list again when something was added.
     */
    method Refresh(listing: Option<seq<Preview>>, details: seq<Option<Message>>) returns (hasNew: bool)
      requires listing.Some? ==> |details| == |listing.value|
      modifies this
      ensures listing.None? ==> !hasNew && slot == old(slot) && seen == old(seen) + IdsOf(LocalEmails())
      ensures listing.Some? ==>
        var r := MergeAll(MergeState(old(LocalEmails()), old(seen), false), listing.value, details);
        && LocalEmails() == r.emails && hasNew == r.hasNew
        && seen == if hasNew then r.seen + IdsOf(r.emails) else r.seen
    {
      if listing.None? {
        RememberShown();
        return false;
      }
      hasNew := Merge(listing.value, details);
      if hasNew {
        RememberShown();
      }
    }

    /**
     * The clear-cache button once the user has confirmed the dialog: remove
     * the stored list and forget every seen id. A declined dialog changes
     * nothing and is not modelled.
     */
    method Clear()
      modifies this
      ensures slot == Absent && seen == {}
      ensures LocalEmails() == []
    {
      slot := Absent;
      seen := {};
    }
  }

  // ---------------------------------------------------------------------------
  // Message body shown in the detail view

  /**
   * The body shown for a cached message. A full message has markup and
   * text and no preview field; a stored preview has only its preview text.
   * So a full message is never shown by a preview, and a stored preview
   * shows its preview exactly when it holds a non-white-space character.
   */
  function DetailBody(e: CachedEmail): (b: Body)
    ensures e.Full? ==> !b.PreviewBody?
    ensures e.Full? && b.NoContent? ==> Trim(e.message.html) == "" && Trim(e.message.text) == ""
    ensures e.Brief? ==> (b == PreviewBody(e.preview.preview) <==> exists k :: 0 <= k < |e.preview.preview| && !IsSpace(e.preview.preview[k]))
    ensures e.Brief? ==> b.PreviewBody? || b.NoContent?
  {
    match e
    case Full(m) => ChooseBody(Some(m.html), Some(m.text), None)
    case Brief(p) =>
      TrimEmptyIffBlank(p.preview);
      ChooseBody(None, None, Some(p.preview))
  }
}
