/** The exact error messages the container builds, and the rewrapping done by
    the `catch` in `ResolveInternal`. */
module Messages {
  import opened Services

  const NotBegun: string :=
    "Resolution has not yet begun - did you forget to call BeginResolution on the container?"

  const ResolverRequired: string := "serviceResolver is required."

  function NotRegistered(k: Key): string {
    "No registered " + k.name + " was found."
  }

  function Mismatch(k: Key, actual: Lifetime): string {
    "Cannot resolve a singleton " + k.name + " as it was registered as a " + LifetimeName(actual) + "."
  }

  function AddAfterBegin(l: Lifetime, k: Key): string {
    "Cannot add a " + LifetimeName(l) + " " + k.name + " because resolution has begun."
  }

  function Duplicate(l: Lifetime, k: Key, existing: Lifetime): string {
    "Cannot add a " + LifetimeName(l) + " " + k.name + " because a " + LifetimeName(existing)
    + " service registration has already been added."
  }

  /** The position of the first dash of `s`, if any. */
  function FirstDash(s: string): (r: Option<nat>)
    ensures r.None? <==> '-' !in s
    ensures r.Some? ==> r.value < |s| && s[r.value] == '-' && '-' !in s[..r.value]
  {
    if s == [] then None
    else if s[0] == '-' then Some(0)
    else match FirstDash(s[1..])
      case None => None
      case Some(i) =>
        assert s[..i + 1] == [s[0]] + s[1..][..i];
        Some(i + 1)
  }

  /** `s.replace(/-/, "--")`: the regular expression has no `g` flag, so only
      the first dash is doubled. */
  function DoubleFirstDash(s: string): string {
    if s == [] then []
    else if s[0] == '-' then "--" + s[1..]
    else [s[0]] + DoubleFirstDash(s[1..])
  }

  /** Only the first dash is doubled: a string without a dash is left as it
      is, otherwise exactly one `-` is inserted, right before the first one. */
  lemma {:induction false} DoubleFirstDashSpec(s: string)
    ensures FirstDash(s).None? ==> DoubleFirstDash(s) == s
    ensures FirstDash(s).Some? ==>
      DoubleFirstDash(s) == s[..FirstDash(s).value] + "--" + s[FirstDash(s).value + 1..]
  {
    if s != [] && s[0] != '-' {
      DoubleFirstDashSpec(s[1..]);
      match FirstDash(s[1..])
      case None =>
      case Some(i) =>
        assert s[..i + 1] == [s[0]] + s[1..][..i];
        assert s[i + 2..] == s[1..][i + 1..];
    }
  }

  /** The first line of a rethrown error, up to and including its line break. */
  function Heading(k: Key): string {
    "Could not resolve " + k.name + ":\r\n"
  }

  /** The message of the error thrown by the `catch` at the frame for `k`. */
  function Wrap(k: Key, inner: string): string {
    Heading(k) + "- " + DoubleFirstDash(inner)
  }

  /** The `try`/`catch` of `ResolveInternal`: a success passes through, an
      error is rethrown wrapped. */
  function Rethrow<T>(k: Key, r: Result<T>): (w: Result<T>)
    ensures w.Ok? <==> r.Ok?
    ensures r.Ok? ==> w == r
    ensures r.Err? ==> w.message == Wrap(k, r.message)
  {
    match r
    case Ok(_) => r
    case Err(m) => Err(Wrap(k, m))
  }

  /** Doubling the first dash skips over a dash-free prefix. */
  lemma {:induction false} DoubleFirstDashAfter(p: string, q: string)
    requires '-' !in p
    ensures DoubleFirstDash(p + q) == p + DoubleFirstDash(q)
  {
    if p != [] {
      assert (p + q)[1..] == p[1..] + q;
      assert '-' !in p[1..];
      DoubleFirstDashAfter(p[1..], q);
    } else {
      assert p + q == q;
    }
  }

  /** Wrapping an already wrapped message: the inner `"- "` becomes `"-- "`,
      which is how the trace shows its depth. */
  lemma WrapTwice(outer: Key, inner: Key, m: string)
    requires '-' !in inner.name
    ensures Wrap(outer, Wrap(inner, m)) == Heading(outer) + "- " + Heading(inner) + "-- " + DoubleFirstDash(m)
  {
    var d := DoubleFirstDash(m);
    assert '-' !in "Could not resolve ";
    assert '-' !in ":\r\n";
    assert Wrap(inner, m) == Heading(inner) + ("- " + d);
    DoubleFirstDashAfter(Heading(inner), "- " + d);
    DoubleLeadingDash(d);
  }

  /** Three frames deep the trace stops deepening: only the first dash of a
      message is doubled, so every line below the second keeps `"-- "`. */
  lemma WrapThrice(a: Key, b: Key, c: Key, m: string)
    requires '-' !in b.name && '-' !in c.name
    ensures Wrap(a, Wrap(b, Wrap(c, m)))
         == Heading(a) + "- " + Heading(b) + "-- " + Heading(c) + "-- " + DoubleFirstDash(m)
  {
    var rest := Heading(c) + "-- " + DoubleFirstDash(m);
    var x := Wrap(b, Wrap(c, m));
    WrapTwice(b, c, m);
    assert x == Heading(b) + ("- " + rest);
    HeadingHasNoDash(b);
    DoubleFirstDashAfter(Heading(b), "- " + rest);
    DoubleLeadingDash(rest);
    assert DoubleFirstDash(x) == Heading(b) + ("-- " + rest);
  }

  lemma HeadingHasNoDash(k: Key)
    requires '-' !in k.name
    ensures '-' !in Heading(k)
  {
    assert '-' !in "Could not resolve ";
    assert '-' !in ":\r\n";
  }

  lemma DoubleLeadingDash(d: string)
    ensures DoubleFirstDash("- " + d) == "-- " + d
  {
    assert ("- " + d)[0] == '-';
    assert ("- " + d)[1..] == " " + d;
  }

  /** The messages raised below the top frame contain no dash of their own
      when key names contain none, so wrapping them changes no character. */
  lemma NotRegisteredKeepsDashes(k: Key)
    requires '-' !in k.name
    ensures '-' !in NotRegistered(k) && DoubleFirstDash(NotRegistered(k)) == NotRegistered(k)
  {
    assert '-' !in "No registered ";
    assert '-' !in " was found.";
    DoubleFirstDashSpec(NotRegistered(k));
  }

  lemma MismatchKeepsDashes(k: Key, l: Lifetime)
    requires '-' !in k.name
    ensures '-' !in Mismatch(k, l) && DoubleFirstDash(Mismatch(k, l)) == Mismatch(k, l)
  {
    var m := Mismatch(k, l);
    assert '-' !in "Cannot resolve a singleton ";
    assert '-' !in " as it was registered as a ";
    assert '-' !in LifetimeName(l);
    assert '-' !in m;
    DoubleFirstDashSpec(m);
  }
}
