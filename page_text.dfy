/**
 * The string rules of the inbox page in public/mail.js: the user name taken
 * from the URL path, the page's own address, JavaScript's `trim`, completion
 * of a compose recipient with the default domain, and the order in which
 * the detail view falls back from markup to text to preview.
 */
module PageText {
  import opened Wrappers
  import opened MailData

  // ---------------------------------------------------------------------------
  // User name from the URL path

  /** `s.split('/')`. */
  function Split(s: string): (parts: seq<string>)
    ensures |parts| >= 1
  {
    if s == [] then [[]]
    else
      var init := Split(s[..|s| - 1]);
      var c := s[|s| - 1];
      if c == '/' then init + [[]]
      else init[..|init| - 1] + [init[|init| - 1] + [c]]
  }

  /** The last part of a split. */
  function LastPart(s: string): string {
    var parts := Split(s);
    parts[|parts| - 1]
  }

  /** No part of a split contains `/`. */
  lemma {:induction false} SplitPartsHaveNoSlash(s: string)
    ensures forall k :: 0 <= k < |Split(s)| ==> '/' !in Split(s)[k]
  {
    if s != [] {
      var init := s[..|s| - 1];
      SplitPartsHaveNoSlash(init);
      var ps := Split(init);
      var c := s[|s| - 1];
      if c != '/' {
        assert '/' !in ps[|ps| - 1] + [c];
      }
    }
  }

  /** The last part of a split is the suffix of `s` after its last `/` (all of `s` if there is none). */
  lemma {:induction false} LastPartIsSuffix(s: string)
    ensures var last := LastPart(s);
      && '/' !in last
      && |last| <= |s| && s[|s| - |last|..] == last
      && (|last| == |s| || s[|s| - |last| - 1] == '/')
  {
    if s != [] {
      var init := s[..|s| - 1];
      var c := s[|s| - 1];
      LastPartIsSuffix(init);
      if c != '/' {
        var li := LastPart(init);
        assert LastPart(s) == li + [c];
        assert s == init + [c];
        assert s[|s| - |li| - 1..] == init[|init| - |li|..] + [c];
      }
    }
  }

  /** The inverse of `Split`: the parts joined with `/`. */
  function Join(parts: seq<string>): string
    requires |parts| >= 1
  {
    if |parts| == 1 then parts[0] else Join(parts[..|parts| - 1]) + "/" + parts[|parts| - 1]
  }

  /** Splitting on `/` and joining back gives the original string. */
  lemma {:induction false} JoinSplit(s: string)
    ensures Join(Split(s)) == s
  {
    if s != [] {
      var init := s[..|s| - 1];
      var c := s[|s| - 1];
      assert s == init + [c];
      JoinSplit(init);
      var ps := Split(init);
      var n := |ps| - 1;
      var parts := Split(s);
      if c == '/' {
        assert parts == ps + [[]];
        assert parts[..n + 1] == ps;
        assert Join(parts) == Join(ps) + "/" + [];
      } else {
        var last := ps[n] + [c];
        assert parts == ps[..n] + [last];
        if n == 0 {
          assert Join(parts) == last;
        } else {
          assert parts[..n] == ps[..n];
          assert Join(parts) == Join(ps[..n]) + "/" + last;
          assert Join(ps) == Join(ps[..n]) + "/" + ps[n];
        }
      }
    }
  }

  /** Every part after index `i` is empty. */
  predicate EmptyAfter(parts: seq<string>, i: int) {
    forall j :: 0 <= j < |parts| && i < j ==> parts[j] == []
  }

  /** `.filter(Boolean)`: the non-empty parts, in order. */
  function NonEmpty(parts: seq<string>): (kept: seq<string>)
    ensures |kept| <= |parts|
    ensures forall x :: x in kept <==> x in parts && x != []
    ensures forall i :: 0 <= i < |kept| ==> kept[i] != []
    ensures kept != [] ==> exists i :: 0 <= i < |parts| && parts[i] == kept[|kept| - 1] && EmptyAfter(parts, i)
  {
    if parts == [] then []
    else
      var n := |parts| - 1;
      var init := NonEmpty(parts[..n]);
      if parts[n] == [] then
        assert init != [] ==> exists i :: 0 <= i < |parts| && parts[i] == init[|init| - 1] && EmptyAfter(parts, i) by {
          if init != [] {
            var i :| 0 <= i < n && parts[..n][i] == init[|init| - 1] && EmptyAfter(parts[..n], i);
            assert parts[i] == init[|init| - 1] && EmptyAfter(parts, i);
          }
        }
        init
      else
        var kept := init + [parts[n]];
        assert kept[|kept| - 1] == parts[n];
        assert parts[n] == kept[|kept| - 1] && EmptyAfter(parts, n);
        kept
  }

  /** `username`: the last non-empty `/`-separated segment of the path, or empty. */
  function Username(path: string): (u: string)
    ensures u == "" || u in Split(path)
  {
    var segments := NonEmpty(Split(path));
    if |segments| > 0 then segments[|segments| - 1] else ""
  }

  /** A trailing `/` does not change the user name. */
  lemma UsernameDropsTrailingSlash(path: string)
    requires path != [] && path[|path| - 1] == '/'
    ensures Username(path) == Username(path[..|path| - 1])
  {
    var parts := Split(path);
    assert parts[..|parts| - 1] == Split(path[..|path| - 1]);
  }

  /** When the path does not end with `/`, the user name is the last part of the split, and it is not empty. */
  lemma UsernameIsLastPart(path: string)
    requires path != [] && path[|path| - 1] != '/'
    ensures Username(path) == LastPart(path) != []
  {
    var parts := Split(path);
    var init := Split(path[..|path| - 1]);
    var last := init[|init| - 1] + [path[|path| - 1]];
    assert parts == init[..|init| - 1] + [last];
    assert parts[..|parts| - 1] == init[..|init| - 1];
  }

  /** `u` occurs in `path` at `i`, right after a `/` or the start, followed by nothing but `/`. */
  predicate LastSegmentAt(path: string, u: string, i: int) {
    && 0 <= i && i + |u| <= |path|
    && path[i..i + |u|] == u
    && (i == 0 || path[i - 1] == '/')
    && (forall j :: i + |u| <= j < |path| ==> path[j] == '/')
  }

  /** Appending `/` to a path keeps its last segment where it was. */
  lemma LastSegmentAtSlash(path: string, u: string, i: int)
    requires LastSegmentAt(path, u, i)
    ensures LastSegmentAt(path + ['/'], u, i)
  {
    var p := path + ['/'];
    assert p[i..i + |u|] == path[i..i + |u|];
  }

  /** The user name contains no `/`. */
  lemma {:induction false} UsernameHasNoSlash(path: string)
    ensures '/' !in Username(path)
  {
    if path != [] {
      if path[|path| - 1] == '/' {
        UsernameDropsTrailingSlash(path);
        UsernameHasNoSlash(path[..|path| - 1]);
      } else {
        UsernameIsLastPart(path);
        LastPartIsSuffix(path);
      }
    }
  }

  /** The user name is empty exactly when the path is made of `/` only. */
  lemma {:induction false} UsernameEmptyIffSlashes(path: string)
    ensures Username(path) == "" <==> forall j :: 0 <= j < |path| ==> path[j] == '/'
  {
    if path != [] {
      var init := path[..|path| - 1];
      if path[|path| - 1] == '/' {
        UsernameDropsTrailingSlash(path);
        UsernameEmptyIffSlashes(init);
        assert forall j :: 0 <= j < |init| ==> init[j] == path[j];
      } else {
        UsernameIsLastPart(path);
      }
    }
  }

  /**
   * A non-empty user name is the segment that ends at the last character
   * of the path which is not `/`, and starts after a `/` or at the start.
   */
  lemma {:induction false} UsernameIsLastSegment(path: string)
    requires Username(path) != ""
    ensures exists i :: LastSegmentAt(path, Username(path), i)
  {
    var u := Username(path);
    var init := path[..|path| - 1];
    if path[|path| - 1] == '/' {
      UsernameDropsTrailingSlash(path);
      UsernameIsLastSegment(init);
      var i :| LastSegmentAt(init, u, i);
      assert path == init + ['/'];
      LastSegmentAtSlash(init, u, i);
    } else {
      UsernameIsLastPart(path);
      LastPartIsSuffix(path);
      assert LastSegmentAt(path, u, |path| - |u|);
    }
  }

  /** The page's own address: the lower-cased user name at the domain. */
  function CurrentAddress(username: string, domain: string): (address: string)
    ensures |address| == |username| + 1 + |domain| && address[|username|] == '@'
    ensures address[..|username|] == Lower(username) && address[|username| + 1..] == domain
    ensures Lower(address) == Lower(username) + "@" + Lower(domain)
    ensures IsLower(domain) ==> Lower(address) == address
  {
    var address := Lower(username) + "@" + domain;
    LowerConcat(Lower(username) + "@", domain);
    LowerConcat(Lower(username), "@");
    LowerIsLower(username);
    assert address[..|username|] == Lower(username);
    assert address[|username| + 1..] == domain;
    address
  }

  // ---------------------------------------------------------------------------
  // Compose recipient

  /** The characters `String.prototype.trim` removes: ECMAScript white space and line terminators. */
  const SpaceChars: set<char> := {
    ' ', '\t', '\n', '\r', '\U{000B}', '\U{000C}', '\U{00A0}', '\U{1680}',
    '\U{2000}', '\U{2001}', '\U{2002}', '\U{2003}', '\U{2004}', '\U{2005}',
    '\U{2006}', '\U{2007}', '\U{2008}', '\U{2009}', '\U{200A}',
    '\U{2028}', '\U{2029}', '\U{202F}', '\U{205F}', '\U{3000}', '\U{FEFF}'}

  predicate IsSpace(c: char) {
    c in SpaceChars
  }

  /** The index of the first character at or after `i` that is not white space (`|s|` if none). */
  function SkipSpaces(s: string, i: nat): (n: nat)
    requires i <= |s|
    ensures i <= n <= |s|
    ensures forall k :: i <= k < n ==> IsSpace(s[k])
    ensures n == |s| || !IsSpace(s[n])
    decreases |s| - i
  {
    if i < |s| && IsSpace(s[i]) then SkipSpaces(s, i + 1) else i
  }

  /** Going back from `j`, not below `lo`: the index just after the last character that is not white space. */
  function BackSpaces(s: string, lo: nat, j: nat): (n: nat)
    requires lo <= j <= |s|
    ensures lo <= n <= j
    ensures forall k :: n <= k < j ==> IsSpace(s[k])
    ensures n == lo || !IsSpace(s[n - 1])
    decreases j
  {
    if lo < j && IsSpace(s[j - 1]) then BackSpaces(s, lo, j - 1) else j
  }

  /** `s.trim()`: drop the white space at both ends. The result neither starts nor ends with white space. */
  function Trim(s: string): (r: string)
    ensures |r| <= |s|
    ensures IsTrimmed(r)
  {
    var i := SkipSpaces(s, 0);
    var j := BackSpaces(s, i, |s|);
    assert i < j ==> s[i..j][0] == s[i] && s[i..j][j - i - 1] == s[j - 1];
    s[i..j]
  }

  /** A string that neither starts nor ends with white space. */
  predicate IsTrimmed(s: string) {
    s == [] || (!IsSpace(s[0]) && !IsSpace(s[|s| - 1]))
  }

  /** `r` is `s[i..j]` and everything of `s` outside `i..j` is white space. */
  predicate SliceInSpace(s: string, r: string, i: int, j: int) {
    && 0 <= i <= j <= |s| && r == s[i..j]
    && (forall k :: 0 <= k < i ==> IsSpace(s[k]))
    && (forall k :: j <= k < |s| ==> IsSpace(s[k]))
  }

  /**
   * `trim` removes exactly the white space at both ends: the result is a
   * slice of `s` and everything outside that slice is white space.
   */
  lemma TrimIsSlice(s: string)
    ensures exists i, j :: SliceInSpace(s, Trim(s), i, j)
  {
    var i := SkipSpaces(s, 0);
    assert SliceInSpace(s, Trim(s), i, BackSpaces(s, i, |s|));
  }

  /** `trim` gives the empty string exactly when `s` is all white space. */
  lemma TrimEmptyIffBlank(s: string)
    ensures Trim(s) == [] <==> forall k :: 0 <= k < |s| ==> IsSpace(s[k])
  {
    var i := SkipSpaces(s, 0);
    if i < |s| {
      assert BackSpaces(s, i, |s|) > i;
    }
  }

  /** Trimming a trimmed string changes nothing. */
  lemma TrimOfTrimmed(s: string)
    requires IsTrimmed(s)
    ensures Trim(s) == s
  {
    if s != [] {
      assert SkipSpaces(s, 0) == 0;
      assert BackSpaces(s, 0, |s|) == |s|;
    }
  }

  /**
   * The recipient the compose form sends on submit: the trimmed field, and
   * a non-empty one without `@` gets `@` and the default domain.
   */
  function CompleteRecipient(input: string, defaultDomain: string): (to: string)
    ensures Trim(input) == "" ==> to == ""
    ensures '@' in Trim(input) ==> to == Trim(input)
    ensures Trim(input) != "" && '@' !in Trim(input) ==> to == Trim(input) + "@" + defaultDomain
  {
    var v := Trim(input);
    if v != "" && '@' !in v then v + "@" + defaultDomain else v
  }

  /**
   * Completing twice is completing once, provided the default domain does
   * not end with white space. The result is either empty or holds an `@`.
   */
  lemma CompleteRecipientIdempotent(input: string, defaultDomain: string)
    requires defaultDomain == [] || !IsSpace(defaultDomain[|defaultDomain| - 1])
    ensures var to := CompleteRecipient(input, defaultDomain);
      && (to == "" || '@' in to)
      && CompleteRecipient(to, defaultDomain) == to
  {
    var v := Trim(input);
    var to := CompleteRecipient(input, defaultDomain);
    if v != "" && '@' !in v {
      assert to == v + "@" + defaultDomain;
      assert to[|v|] == '@';
      assert to[0] == v[0];
      assert to[|to| - 1] == if defaultDomain == [] then '@' else defaultDomain[|defaultDomain| - 1];
      TrimOfTrimmed(to);
      assert Trim(to) == to && '@' in to;
    } else {
      assert to == v;
      TrimOfTrimmed(v);
      assert Trim(to) == to;
    }
  }

  /**
   * The blur handler of the recipient field: the field is replaced only
   * when its trimmed value is non-empty and has no `@`; otherwise it keeps
   * what was typed, white space included.
   */
  function BlurComplete(input: string, defaultDomain: string): (field: string)
    ensures Trim(input) == "" || '@' in Trim(input) ==> field == input
    ensures Trim(input) != "" && '@' !in Trim(input) ==> field == Trim(input) + "@" + defaultDomain
  {
    var v := Trim(input);
    if v != "" && '@' !in v then v + "@" + defaultDomain else input
  }

  /**
   * Leaving the recipient field and then submitting sends what submitting
   * right away sends: the blur completion does not change the recipient.
   */
  lemma BlurThenSubmit(input: string, defaultDomain: string)
    requires defaultDomain == [] || !IsSpace(defaultDomain[|defaultDomain| - 1])
    ensures CompleteRecipient(BlurComplete(input, defaultDomain), defaultDomain) == CompleteRecipient(input, defaultDomain)
  {
    var v := Trim(input);
    if v != "" && '@' !in v {
      CompleteRecipientIdempotent(input, defaultDomain);
    }
  }

  // ---------------------------------------------------------------------------
  // Message body shown in the detail view

  /** What the detail view shows as the body. */
  datatype Body = HtmlBody(html: string) | TextBody(text: string) | PreviewBody(preview: string) | NoContent

  /** `typeof x === 'string' && x.trim()`: present and not all white space. */
  predicate NonBlank(s: Option<string>) {
    s.Some? && Trim(s.value) != ""
  }

  /**
   * The body fallback: the markup if it is a non-blank string, else the
   * text, else the preview, else the placeholder `'Tidak ada konten'`.
   */
  function ChooseBody(html: Option<string>, text: Option<string>, preview: Option<string>): (b: Body)
    ensures b.HtmlBody? <==> NonBlank(html)
    ensures b.TextBody? <==> !NonBlank(html) && NonBlank(text)
    ensures b.PreviewBody? <==> !NonBlank(html) && !NonBlank(text) && NonBlank(preview)
    ensures b.NoContent? <==> !NonBlank(html) && !NonBlank(text) && !NonBlank(preview)
    ensures b.HtmlBody? ==> html == Some(b.html)
    ensures b.TextBody? ==> text == Some(b.text)
    ensures b.PreviewBody? ==> preview == Some(b.preview)
  {
    if NonBlank(html) then HtmlBody(html.value)
    else if NonBlank(text) then TextBody(text.value)
    else if NonBlank(preview) then PreviewBody(preview.value)
    else NoContent
  }
}
