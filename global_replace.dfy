/** `String.prototype.replace` with a global regular expression and a callback:
    scan left to right; where the pattern matches, emit what the callback
    returns and resume after the match; elsewhere copy one character. A
    callback that throws aborts the whole call. None of the server's patterns
    can match the empty string, so every match advances. */
module GlobalReplace {
  import opened Wrappers

  /** What a pattern and its callback do at one position of the subject. */
  datatype Step = NoMatch | Subst(end: nat, text: string) | Throw

  type Matcher = (string, nat) -> Step

  /** Every match at `i` ends after `i` and within the subject. */
  predicate Advances(m: Matcher, s: string) {
    forall i :: 0 <= i < |s| ==> m(s, i).Subst? ==> i < m(s, i).end <= |s|
  }

  function Prepend(prefix: string, r: Option<string>): Option<string> {
    match r
    case Some(t) => Some(prefix + t)
    case None => None
  }

  /** The replacement of the suffix of `s` that starts at `i`. */
  function ReplaceFrom(s: string, m: Matcher, i: nat): Option<string>
    requires i <= |s| && Advances(m, s)
    decreases |s| - i
  {
    if i == |s| then Some([])
    else match m(s, i)
      case NoMatch => Prepend([s[i]], ReplaceFrom(s, m, i + 1))
      case Subst(e, t) => Prepend(t, ReplaceFrom(s, m, e))
      case Throw => None
  }

  /** `s.replace(pattern, callback)`; `None` when the callback threw. */
  function ReplaceAll(s: string, m: Matcher): Option<string>
    requires Advances(m, s)
  {
    ReplaceFrom(s, m, 0)
  }

  /** Where the pattern matches nowhere, the subject comes back unchanged. */
  lemma {:induction false} NoMatchFromIdentity(s: string, m: Matcher, i: nat)
    requires i <= |s| && Advances(m, s)
    requires forall j :: i <= j < |s| ==> m(s, j).NoMatch?
    ensures ReplaceFrom(s, m, i) == Some(s[i..])
    decreases |s| - i
  {
    if i < |s| {
      NoMatchFromIdentity(s, m, i + 1);
      assert ReplaceFrom(s, m, i) == Prepend([s[i]], ReplaceFrom(s, m, i + 1));
      assert s[i..] == [s[i]] + s[i + 1..];
    }
  }

  lemma NoMatchIdentity(s: string, m: Matcher)
    requires Advances(m, s)
    requires forall j :: 0 <= j < |s| ==> m(s, j).NoMatch?
    ensures ReplaceAll(s, m) == Some(s)
  {
    NoMatchFromIdentity(s, m, 0);
  }

  /** A callback that never throws makes the whole replacement succeed. */
  lemma {:induction false} NoThrowFromSucceeds(s: string, m: Matcher, i: nat)
    requires i <= |s| && Advances(m, s)
    requires forall j :: i <= j < |s| ==> !m(s, j).Throw?
    ensures ReplaceFrom(s, m, i).Some?
    decreases |s| - i
  {
    if i < |s| {
      match m(s, i)
      case NoMatch => NoThrowFromSucceeds(s, m, i + 1);
      case Subst(e, _) => NoThrowFromSucceeds(s, m, e);
    }
  }

  /** The text before the first match is copied, the first match is replaced,
      and scanning resumes after it. */
  lemma {:induction false} FirstMatch(s: string, m: Matcher, i: nat, p: nat)
    requires i <= p < |s| && Advances(m, s)
    requires forall j :: i <= j < p ==> m(s, j).NoMatch?
    requires m(s, p).Subst?
    ensures ReplaceFrom(s, m, i) == Prepend(s[i..p] + m(s, p).text, ReplaceFrom(s, m, m(s, p).end))
    decreases p - i
  {
    if i < p {
      FirstMatch(s, m, i + 1, p);
      assert s[i..p] == [s[i]] + s[i + 1..p];
      match ReplaceFrom(s, m, m(s, p).end)
      case Some(t) =>
        assert [s[i]] + (s[i + 1..p] + m(s, p).text + t) == s[i..p] + m(s, p).text + t;
      case None =>
    } else {
      assert s[i..p] + m(s, p).text == m(s, p).text;
    }
  }
}
