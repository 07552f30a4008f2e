/**
 * `POST /api/waitlist`: the presence and format checks on the submitted
 * e-mail, and the hand-off to the store. The format check is the regular
 * expression `^[^\s@]+@[^\s@]+\.[^\s@]+$`; `MatchesEmailPattern` states what
 * that expression accepts, and `IsValidEmail` is the check as computed.
 */
module Waitlist {

  import opened Wrappers
  import opened JsText
  import opened Arrays
  import opened Schema
  import opened Storage

  /** `[^\s@]+` holds of a whole string: non-empty, no white space, no `@`. */
  predicate Segment(s: string) {
    |s| > 0 && forall k :: 0 <= k < |s| ==> !IsSpace(s[k]) && s[k] != '@'
  }

  /** The strings the anchored expression matches: segment, `@`, segment, `.`, segment. */
  ghost predicate MatchesEmailPattern(s: string) {
    exists i, j :: 0 <= i < j < |s| && s[i] == '@' && s[j] == '.'
      && Segment(s[..i]) && Segment(s[i + 1..j]) && Segment(s[j + 1..])
  }

  /**
   * The check as computed: no white space anywhere, exactly one `@` and it is
   * not first, and some `.` after the `@` that is neither right after it nor
   * last.
   */
  function IsValidEmail(s: string): (ok: bool)
    ensures ok ==> forall k :: 0 <= k < |s| ==> !IsSpace(s[k])
    ensures ok ==> |s| >= 5
  {
    var at := FirstIndex(s, (c: char) => c == '@');
    && 0 < at < |s|
    && (forall k | 0 <= k < |s| :: !IsSpace(s[k]) && (s[k] == '@' ==> k == at))
    && exists j | at + 1 < j < |s| - 1 :: s[j] == '.'
  }

  /** The computed check accepts exactly what the regular expression matches. */
  lemma IsValidEmailIsPattern(s: string)
    ensures IsValidEmail(s) <==> MatchesEmailPattern(s)
  {
    if IsValidEmail(s) {
      ValidEmailMatches(s);
    }
    if MatchesEmailPattern(s) {
      var i, j :| 0 <= i < j < |s| && s[i] == '@' && s[j] == '.'
        && Segment(s[..i]) && Segment(s[i + 1..j]) && Segment(s[j + 1..]);
      MatchIsValidEmail(s, i, j);
    }
  }

  lemma ValidEmailMatches(s: string)
    requires IsValidEmail(s)
    ensures MatchesEmailPattern(s)
  {
    var at := FirstIndex(s, (c: char) => c == '@');
    var j :| at + 1 < j < |s| - 1 && s[j] == '.';
    var local, domain, top := s[..at], s[at + 1..j], s[j + 1..];
    forall k | 0 <= k < |domain| ensures !IsSpace(domain[k]) && domain[k] != '@' {
      assert domain[k] == s[at + 1 + k];
    }
    forall k | 0 <= k < |top| ensures !IsSpace(top[k]) && top[k] != '@' {
      assert top[k] == s[j + 1 + k];
    }
    assert Segment(local) && Segment(domain) && Segment(top);
  }

  lemma MatchIsValidEmail(s: string, i: nat, j: nat)
    requires i < j < |s| && s[i] == '@' && s[j] == '.'
    requires Segment(s[..i]) && Segment(s[i + 1..j]) && Segment(s[j + 1..])
    ensures IsValidEmail(s)
  {
    var local, domain, top := s[..i], s[i + 1..j], s[j + 1..];
    var at := FirstIndex(s, (c: char) => c == '@');
    forall k | 0 <= k < i ensures s[k] != '@' {
      assert s[k] == local[k];
    }
    assert at == i;
    forall k | 0 <= k < |s| ensures !IsSpace(s[k]) && (s[k] == '@' ==> k == at) {
      if k < i {
        assert s[k] == local[k];
      } else if i < k < j {
        assert s[k] == domain[k - i - 1];
      } else if j < k {
        assert s[k] == top[k - j - 1];
      }
    }
  }

  /** The three shapes the handler answers with. */
  datatype Response =
    | Refused(status: int, text: string)  // res.status(400).send(...)
    | Created(status: int, entry: WaitlistEntry)  // res.status(201).json(entry)

  /**
   * The handler: 400 "Email is required" for a missing or empty e-mail, 400
   * "Invalid email format" when the expression does not match, otherwise 201
   * with the entry `addToWaitlist` returns (an existing one for a known
   * e-mail). Refusals leave the store untouched.
   */
  method PostWaitlist(store: MemStorage, email: Option<string>, now: Instant) returns (res: Response)
    requires store.Valid()
    modifies store
    ensures store.Valid()
    ensures (email.None? || email == Some("")) ==>
              res == Refused(400, "Email is required") && store.waitlist == old(store.waitlist)
    ensures email.Some? && email.value != "" && !MatchesEmailPattern(email.value) ==>
              res == Refused(400, "Invalid email format") && store.waitlist == old(store.waitlist)
    ensures email.Some? && MatchesEmailPattern(email.value) ==>
              res.Created? && res.status == 201 && (res.entry, store.waitlist) == Enlist(old(store.waitlist), email.value, now)
    ensures store.users == old(store.users) && store.rooms == old(store.rooms)
    ensures store.messages == old(store.messages) && store.snippets == old(store.snippets)
  {
    if email.None? || email.value == "" {
      return Refused(400, "Email is required");
    }
    IsValidEmailIsPattern(email.value);
    if !IsValidEmail(email.value) {
      return Refused(400, "Invalid email format");
    }
    var entry := store.AddToWaitlist(email.value, now);
    res := Created(201, entry);
  }
}
