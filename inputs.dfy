/**
 * The list logic around the matcher in popup.js: remembering a typed
 * address (`saveEmail`, with the browser's storage abstracted into a list
 * argument and result) and collecting the participants from the input
 * boxes (`findOverlappingMeetings`: trim, drop empty, need at least two).
 */
module Inputs {

  // ---------------------------------------------------------------------
  // saveEmail

  /** The saved addresses after `saveEmail(email)`: an empty or known address changes nothing. */
  function SavedAfter(saved: seq<string>, email: string): (r: seq<string>)
    ensures forall x :: x in r <==> x in saved || (x == email && email != "")
    ensures |saved| <= |r| && r[..|saved|] == saved
    ensures |r| == |saved| + 1 <==> email != "" && email !in saved
    ensures |r| <= |saved| + 1
  {
    if email == "" || email in saved then saved else saved + [email]
  }

  /** `saveEmail`: loads the saved list, pushes a new non-empty address and stores the list. */
  method SaveEmail(saved: seq<string>, email: string) returns (emails: seq<string>)
    ensures emails == SavedAfter(saved, email)
  {
    emails := saved;
    if email == "" {
      return;
    }
    if email !in emails {
      emails := emails + [email];
    }
  }

  predicate Distinct(s: seq<string>)
  {
    forall i, j :: 0 <= i < j < |s| ==> s[i] != s[j]
  }

  /** Saving into a list with no address twice leaves it with no address twice. */
  lemma SavedStaysDistinct(saved: seq<string>, email: string)
    requires Distinct(saved)
    ensures Distinct(SavedAfter(saved, email))
  {
  }

  /** Saving the same address twice is the same as saving it once. */
  lemma SavedIdempotent(saved: seq<string>, email: string)
    ensures SavedAfter(SavedAfter(saved, email), email) == SavedAfter(saved, email)
  {
  }

  // ---------------------------------------------------------------------
  // String.prototype.trim

  /** A code point `trim` removes: an ECMAScript WhiteSpace or LineTerminator. */
  predicate IsTrimmable(c: char)
  {
    c == '\t' || c == '\n' || c == '\U{000B}' || c == '\U{000C}' || c == '\r' || c == ' '
    || c == '\U{00A0}' || c == '\U{1680}' || ('\U{2000}' <= c <= '\U{200A}')
    || c == '\U{2028}' || c == '\U{2029}' || c == '\U{202F}' || c == '\U{205F}'
    || c == '\U{3000}' || c == '\U{FEFF}'
  }

  /** The number of white-space code points at the start of `s`. */
  function Lead(s: string): (n: nat)
    ensures n <= |s|
    ensures forall k :: 0 <= k < n ==> IsTrimmable(s[k])
    ensures n < |s| ==> !IsTrimmable(s[n])
  {
    if s == [] || !IsTrimmable(s[0]) then 0
    else
      var n := Lead(s[1..]);
      assert forall k :: 1 <= k < |s| ==> s[k] == s[1..][k - 1];
      1 + n
  }

  /** The index where the white space at the end of `s` begins. */
  function Tail(s: string): (n: nat)
    ensures n <= |s|
    ensures forall k :: n <= k < |s| ==> IsTrimmable(s[k])
    ensures n > 0 ==> !IsTrimmable(s[n - 1])
  {
    if s == [] || !IsTrimmable(s[|s| - 1]) then |s|
    else
      var n := Tail(s[..|s| - 1]);
      assert forall k :: 0 <= k < |s| - 1 ==> s[k] == s[..|s| - 1][k];
      n
  }

  /** `s.trim()`: the code points of `s` between its leading and its trailing white space. */
  function Trim(s: string): (r: string)
    ensures |r| <= |s|
    ensures r == [] || (!IsTrimmable(r[0]) && !IsTrimmable(r[|r| - 1]))
    ensures r == [] <==> forall k :: 0 <= k < |s| ==> IsTrimmable(s[k])
  {
    var i, j := Lead(s), Tail(s);
    if i == |s| then [] else s[i..j]
  }

  /**
   * What `trim` removes is white space from the two ends and nothing else:
   * the result is the slice of `s` that follows its leading white space and
   * is followed only by white space.
   */
  lemma TrimIsSlice(s: string)
    ensures var i := Lead(s);
      i + |Trim(s)| <= |s| && Trim(s) == s[i..i + |Trim(s)|]
      && forall k :: i + |Trim(s)| <= k < |s| ==> IsTrimmable(s[k])
  {
  }

  /** Trimming twice is trimming once. */
  lemma TrimIdempotent(s: string)
    ensures Trim(Trim(s)) == Trim(s)
  {
  }

  // ---------------------------------------------------------------------
  // Collecting the participants

  /** `inputs.map(v => v.trim()).filter(e => e !== '')`. */
  function Participants(inputs: seq<string>): (r: seq<string>)
    ensures |r| <= |inputs|
    ensures forall k :: 0 <= k < |r| ==> r[k] != ""
  {
    if inputs == [] then []
    else (if Trim(inputs[0]) != "" then [Trim(inputs[0])] else []) + Participants(inputs[1..])
  }

  /** The participants are exactly the non-empty trimmed inputs, each already trimmed. */
  lemma {:induction false} ParticipantsMembers(inputs: seq<string>, x: string)
    ensures x in Participants(inputs) <==> x != "" && exists k :: 0 <= k < |inputs| && Trim(inputs[k]) == x
    ensures x in Participants(inputs) ==> Trim(x) == x
  {
    if inputs != [] {
      ParticipantsMembers(inputs[1..], x);
      TrimIdempotent(inputs[0]);
      assert forall k :: 1 <= k < |inputs| ==> inputs[1..][k - 1] == inputs[k];
    }
  }

  /** Collection keeps the order of the input boxes: it distributes over concatenation. */
  lemma {:induction false} ParticipantsConcat(a: seq<string>, b: seq<string>)
    ensures Participants(a + b) == Participants(a) + Participants(b)
  {
    if a == [] {
      assert a + b == b;
    } else {
      assert (a + b)[0] == a[0];
      assert (a + b)[1..] == a[1..] + b;
      ParticipantsConcat(a[1..], b);
    }
  }

  /** Box `j` holds more than white space. */
  predicate NonBlankAt(inputs: seq<string>, j: int)
  {
    0 <= j < |inputs| && Trim(inputs[j]) != ""
  }

  ghost predicate SomeNonBlank(inputs: seq<string>)
  {
    exists j :: NonBlankAt(inputs, j)
  }

  ghost predicate TwoNonBlank(inputs: seq<string>)
  {
    exists j, k :: j < k && NonBlankAt(inputs, j) && NonBlankAt(inputs, k)
  }

  /** At least one participant exactly when some box holds more than white space. */
  lemma ParticipantsAtLeastOne(inputs: seq<string>)
    ensures |Participants(inputs)| >= 1 <==> SomeNonBlank(inputs)
  {
    if |Participants(inputs)| >= 1 {
      var x := Participants(inputs)[0];
      ParticipantsMembers(inputs, x);
      var k :| 0 <= k < |inputs| && Trim(inputs[k]) == x;
      assert NonBlankAt(inputs, k);
    }
    if SomeNonBlank(inputs) {
      var j :| NonBlankAt(inputs, j);
      ParticipantsMembers(inputs, Trim(inputs[j]));
    }
  }

  /** At least two participants exactly when two different boxes hold more than white space. */
  lemma {:induction false} ParticipantsAtLeastTwo(inputs: seq<string>)
    ensures |Participants(inputs)| >= 2 <==> TwoNonBlank(inputs)
  {
    if inputs != [] {
      if Trim(inputs[0]) != "" {
        TwoWithFirst(inputs);
      } else {
        ParticipantsAtLeastTwo(inputs[1..]);
        TwoWithoutFirst(inputs);
      }
    }
  }

  /** A non-blank first box: one more participant is needed from the rest. */
  lemma TwoWithFirst(inputs: seq<string>)
    requires inputs != [] && Trim(inputs[0]) != ""
    ensures |Participants(inputs)| >= 2 <==> TwoNonBlank(inputs)
  {
    var rest := inputs[1..];
    assert Participants(inputs) == [Trim(inputs[0])] + Participants(rest);
    ParticipantsAtLeastOne(rest);
    if SomeNonBlank(rest) {
      var k :| NonBlankAt(rest, k);
      assert NonBlankAt(inputs, 0) && NonBlankAt(inputs, k + 1);
    }
    if TwoNonBlank(inputs) {
      var j, k :| j < k && NonBlankAt(inputs, j) && NonBlankAt(inputs, k);
      assert rest[k - 1] == inputs[k];
      assert NonBlankAt(rest, k - 1);
    }
  }

  /** A blank first box adds nothing: both sides are decided by the rest. */
  lemma TwoWithoutFirst(inputs: seq<string>)
    requires inputs != [] && Trim(inputs[0]) == ""
    requires |Participants(inputs[1..])| >= 2 <==> TwoNonBlank(inputs[1..])
    ensures |Participants(inputs)| >= 2 <==> TwoNonBlank(inputs)
  {
    var rest := inputs[1..];
    assert Participants(inputs) == Participants(rest);
    if TwoNonBlank(inputs) {
      var j, k :| j < k && NonBlankAt(inputs, j) && NonBlankAt(inputs, k);
      assert rest[j - 1] == inputs[j] && rest[k - 1] == inputs[k];
      assert NonBlankAt(rest, j - 1) && NonBlankAt(rest, k - 1);
    }
    if TwoNonBlank(rest) {
      var j, k :| j < k && NonBlankAt(rest, j) && NonBlankAt(rest, k);
      assert rest[j] == inputs[j + 1] && rest[k] == inputs[k + 1];
      assert NonBlankAt(inputs, j + 1) && NonBlankAt(inputs, k + 1);
    }
  }

  /** The outcome of the participant check in `findOverlappingMeetings`. */
  datatype Validated =
    | Ready(emails: seq<string>)  // go on to the token request and the fetches
    | TooFewEmails                // 'Please enter at least 2 email addresses'; nothing else runs

  /** Collects the participants and stops when fewer than two remain. */
  function CheckParticipants(inputs: seq<string>): (r: Validated)
    ensures r.Ready? <==> TwoNonBlank(inputs)
    ensures r.Ready? ==> |r.emails| >= 2 && r.emails == Participants(inputs)
  {
    ParticipantsAtLeastTwo(inputs);
    var emails := Participants(inputs);
    if |emails| < 2 then TooFewEmails else Ready(emails)
  }
}
