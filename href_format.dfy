/** Href format strings: which fields a format names, whether it names the
    required ones (`validate_href_format`), and how a concrete href is
    matched against it (`parse(href_format, href)`).

    A format is a sequence of literal pieces and `{name}` fields. As in the
    `parse` library, a field captures a non-empty piece of text, as short as
    the rest of the format allows (the regular expression `.+?`); the match
    is anchored at both ends of the href; the matcher backtracks, trying the
    capture lengths 1, 2, ... of each field in turn, and the first complete
    match wins. A name that appears a second time does not capture again: it
    must match the text captured the first time (a back-reference). */
module HrefFormat {
  import opened Base
  import opened Text

  // ---------------------------------------------------------------------------
  // The fields a format names

  /** The names of the fields of `t` that are not in `seen`, each once, in
      the order of their first appearance. */
  function NewNames(t: Template, seen: set<string>): seq<string>
  {
    if t == [] then []
    else match t[0]
      case Lit(_) => NewNames(t[1..], seen)
      case Field(n) =>
        if n in seen then NewNames(t[1..], seen) else [n] + NewNames(t[1..], seen + {n})
  }

  /** `Parser(href_format).named_fields`. */
  function NamedFields(t: Template): seq<string> {
    NewNames(t, {})
  }

  /** `t` has a `{n}` field somewhere. */
  predicate HasField(t: Template, n: string) {
    exists i :: 0 <= i < |t| && t[i] == Field(n)
  }

  predicate Distinct(xs: seq<string>) {
    forall i, j :: 0 <= i < j < |xs| ==> xs[i] != xs[j]
  }

  lemma HasFieldCons(t: Template)
    requires t != []
    ensures forall n :: HasField(t, n) <==> t[0] == Field(n) || HasField(t[1..], n)
  {
    forall n ensures HasField(t, n) <==> t[0] == Field(n) || HasField(t[1..], n) {
      if HasField(t, n) {
        var i :| 0 <= i < |t| && t[i] == Field(n);
        if i > 0 { assert t[1..][i - 1] == Field(n); }
      }
      if HasField(t[1..], n) {
        var i :| 0 <= i < |t[1..]| && t[1..][i] == Field(n);
        assert t[i + 1] == Field(n);
      }
    }
  }

  /** `NewNames` lists every field name outside `seen`, and only those, and
      lists none twice. */
  lemma {:induction false} NewNamesSpec(t: Template, seen: set<string>)
    ensures forall n :: n in NewNames(t, seen) <==> n !in seen && HasField(t, n)
    ensures Distinct(NewNames(t, seen))
  {
    if t != [] {
      HasFieldCons(t);
      match t[0]
      case Lit(_) =>
        NewNamesSpec(t[1..], seen);
      case Field(m) =>
        if m in seen {
          NewNamesSpec(t[1..], seen);
        } else {
          NewNamesSpec(t[1..], seen + {m});
        }
    }
  }

  lemma NamedFieldsSpec(t: Template)
    ensures forall n :: n in NamedFields(t) <==> HasField(t, n)
    ensures Distinct(NamedFields(t))
  {
    NewNamesSpec(t, {});
  }

  // ---------------------------------------------------------------------------
  // Validation

  /** The fields every href format must name, in sorted order. */
  const RequiredFields: seq<string> := ["version", "year"]

  /** Python's `<` on strings: lexicographic by code point. */
  predicate LexLess(a: string, b: string)
    decreases |a|
  {
    if a == [] then b != []
    else b != [] && (a[0] < b[0] || (a[0] == b[0] && LexLess(a[1..], b[1..])))
  }

  predicate StrictlySorted(xs: seq<string>) {
    forall i, j :: 0 <= i < j < |xs| ==> LexLess(xs[i], xs[j])
  }

  /** `validate_href_format`: the format comes back unchanged when it names
      both `version` and `year`; otherwise the error lists exactly the
      missing ones, sorted. (The `Invalid href_format` branch concerns format
      strings that do not compile; a template here is already split into its
      pieces.) */
  function ValidateHrefFormat(t: Template): (r: Result<Template>)
    ensures r.Ok? <==> HasField(t, "version") && HasField(t, "year")
    ensures r.Ok? ==> r.value == t
    ensures r.Err? ==>
      && r.error.MissingRequiredParameters?
      && (forall p :: p in r.error.missing <==> p in RequiredFields && !HasField(t, p))
      && StrictlySorted(r.error.missing)
  {
    NamedFieldsSpec(t);
    var found := NamedFields(t);
    var missing := (if "version" in found then [] else ["version"])
      + (if "year" in found then [] else ["year"]);
    assert LexLess("version", "year");
    if missing == [] then Ok(t) else Err(MissingRequiredParameters(missing))
  }

  // ---------------------------------------------------------------------------
  // Captures: `Result.named`, an insertion-ordered dictionary

  datatype Captures = Captures(keys: seq<string>, vals: map<string, string>)

  const NoCaptures: Captures := Captures([], map[])

  /** The keys are the map's keys, each listed once. */
  predicate WellFormed(c: Captures) {
    (forall k :: k in c.keys ==> k in c.vals) && (forall k :: k in c.vals ==> k in c.keys)
    && Distinct(c.keys)
  }

  function Bind(c: Captures, n: string, v: string): Captures {
    Captures(c.keys + [n], c.vals[n := v])
  }

  /** `result.named.values()`, in key order. */
  function Values(c: Captures): (r: seq<string>)
    requires WellFormed(c)
    ensures |r| == |c.keys|
    ensures forall i :: 0 <= i < |c.keys| ==> r[i] == c.vals[c.keys[i]]
  {
    seq(|c.keys|, i requires 0 <= i < |c.keys| => c.vals[c.keys[i]])
  }

  // ---------------------------------------------------------------------------
  // Matching

  /** Match `s` against `t`, given the captures made so far. */
  function MatchFrom(t: Template, s: string, c: Captures): Option<Captures>
    decreases |t|, |s| + 1
  {
    if t == [] then (if s == [] then Some(c) else None)
    else match t[0]
      case Lit(x) => if x <= s then MatchFrom(t[1..], s[|x|..], c) else None
      case Field(n) =>
        if n in c.vals then
          var v := c.vals[n];
          if v <= s then MatchFrom(t[1..], s[|v|..], c) else None
        else TryLengths(t[1..], s, c, n, 1)
  }

  /** A fresh field `n` followed by `rest`: capture the first `k` characters
      of `s`, then `k + 1`, ..., until the rest of the format matches. */
  function TryLengths(rest: Template, s: string, c: Captures, n: string, k: nat): Option<Captures>
    requires 1 <= k
    decreases |rest| + 1, |s| + 1 - k
  {
    if k > |s| then None
    else match MatchFrom(rest, s[k..], Bind(c, n, s[..k]))
      case Some(r) => Some(r)
      case None => TryLengths(rest, s, c, n, k + 1)
  }

  /** `parse(t, s)`: the named captures when the whole of `s` matches `t`. */
  function Parse(t: Template, s: string): Option<Captures> {
    MatchFrom(t, s, NoCaptures)
  }

  // ---------------------------------------------------------------------------
  // Substituting values into a format: the inverse of matching

  /** Every field of `t` has a value in `m`. */
  predicate Covers(t: Template, m: map<string, string>) {
    forall i :: 0 <= i < |t| && t[i].Field? ==> t[i].name in m
  }

  /** Every field of `t` has a non-empty value in `m`. */
  predicate NonEmptyValues(t: Template, m: map<string, string>)
    requires Covers(t, m)
  {
    forall i :: 0 <= i < |t| && t[i].Field? ==> m[t[i].name] != ""
  }

  /** The href that `t` describes when each field is replaced by its value. */
  function Render(t: Template, m: map<string, string>): string
    requires Covers(t, m)
  {
    if t == [] then ""
    else
      assert Covers(t[1..], m) by {
        forall i | 0 <= i < |t[1..]| && t[1..][i].Field? ensures t[1..][i].name in m {
          assert t[1..][i] == t[i + 1];
        }
      }
      (match t[0] case Lit(x) => x case Field(n) => m[n]) + Render(t[1..], m)
  }

  /** Every field is last in `t`, or followed by the last token of `t`, a
      literal, or followed by a non-empty literal whose first character does
      not occur in the field's value: then the shortest capture is the
      intended one. */
  predicate Separable(t: Template, m: map<string, string>)
    requires Covers(t, m)
  {
    forall i :: 0 <= i < |t| && t[i].Field? ==>
      || i == |t| - 1
      || (t[i + 1].Lit? && i + 1 == |t| - 1)
      || (t[i + 1].Lit? && t[i + 1].text != [] && t[i + 1].text[0] !in m[t[i].name])
  }

  /** The captures `c` agree with the values `m`. */
  predicate Agrees(c: Captures, m: map<string, string>) {
    forall k :: k in c.vals ==> k in m && m[k] == c.vals[k]
  }

  /** `c` followed by the bindings of `names`, in order, to their values. */
  function Extend(c: Captures, names: seq<string>, m: map<string, string>): Captures
    requires forall i :: 0 <= i < |names| ==> names[i] in m
    decreases |names|
  {
    if names == [] then c else Extend(Bind(c, names[0], m[names[0]]), names[1..], m)
  }

  lemma {:induction false} ExtendSpec(c: Captures, names: seq<string>, m: map<string, string>)
    requires forall i :: 0 <= i < |names| ==> names[i] in m
    ensures Extend(c, names, m).keys == c.keys + names
    ensures forall k :: k in Extend(c, names, m).vals <==> k in c.vals || k in names
    ensures forall k :: k in names ==> Extend(c, names, m).vals[k] == m[k]
    ensures forall k :: k in c.vals && k !in names ==> Extend(c, names, m).vals[k] == c.vals[k]
    decreases |names|
  {
    if names != [] {
      var n := names[0];
      ExtendSpec(Bind(c, n, m[n]), names[1..], m);
      assert names == [n] + names[1..];
      assert c.keys + [n] + names[1..] == c.keys + names;
    }
  }

  // ---------------------------------------------------------------------------
  // Soundness: a match reconstructs the href

  lemma {:induction false} TryLengthsFound(rest: Template, s: string, c: Captures, n: string, k: nat)
    requires 1 <= k
    requires TryLengths(rest, s, c, n, k).Some?
    ensures exists j ::
      && k <= j <= |s|
      && MatchFrom(rest, s[j..], Bind(c, n, s[..j])) == TryLengths(rest, s, c, n, k)
    decreases |s| + 1 - k
  {
    if MatchFrom(rest, s[k..], Bind(c, n, s[..k])).None? {
      TryLengthsFound(rest, s, c, n, k + 1);
    }
  }

  /** What a successful match returns: it extends the captures with the new
      field names in order, all with non-empty values, and substituting
      them back into the format gives the href. */
  predicate SoundResult(t: Template, s: string, c: Captures, r: Captures) {
    && WellFormed(r)
    && r.keys == c.keys + NewNames(t, c.vals.Keys)
    && Agrees(c, r.vals)
    && (forall k :: k in r.vals && k !in c.vals ==> r.vals[k] != "")
    && Covers(t, r.vals)
    && Render(t, r.vals) == s
  }

  lemma {:induction false} MatchSound(t: Template, s: string, c: Captures)
    requires WellFormed(c)
    requires MatchFrom(t, s, c).Some?
    ensures SoundResult(t, s, c, MatchFrom(t, s, c).value)
    decreases |t|, 1
  {
    if t != [] {
      var rest := t[1..];
      var r := MatchFrom(t, s, c).value;
      match t[0]
      case Lit(x) =>
        MatchSound(rest, s[|x|..], c);
        LiftSound(t, s, c, r, |x|);
      case Field(n) =>
        if n in c.vals {
          MatchSound(rest, s[|c.vals[n]|..], c);
          LiftSound(t, s, c, r, |c.vals[n]|);
        } else {
          MatchSoundFresh(t, s, c);
        }
    }
  }

  /** The literal or back-reference at the head of `t` consumed `len`
      characters; the result for the rest carries over to `t`. */
  lemma LiftSound(t: Template, s: string, c: Captures, r: Captures, len: nat)
    requires t != [] && len <= |s|
    requires t[0].Lit? ==> t[0].text == s[..len]
    requires t[0].Field? ==> t[0].name in c.vals && c.vals[t[0].name] == s[..len]
    requires SoundResult(t[1..], s[len..], c, r)
    ensures SoundResult(t, s, c, r)
  {
    assert Covers(t, r.vals) by {
      forall i | 0 <= i < |t| && t[i].Field? ensures t[i].name in r.vals {
        if i > 0 { assert t[1..][i - 1] == t[i]; }
      }
    }
    assert s == s[..len] + s[len..];
  }

  lemma {:induction false} MatchSoundFresh(t: Template, s: string, c: Captures)
    requires WellFormed(c)
    requires t != [] && t[0].Field? && t[0].name !in c.vals
    requires MatchFrom(t, s, c).Some?
    ensures SoundResult(t, s, c, MatchFrom(t, s, c).value)
    decreases |t|, 0
  {
    var rest := t[1..];
    var n := t[0].name;
    var r := MatchFrom(t, s, c).value;
    TryLengthsFound(rest, s, c, n, 1);
    var j :| 1 <= j <= |s| && MatchFrom(rest, s[j..], Bind(c, n, s[..j])) == Some(r);
    var c' := Bind(c, n, s[..j]);
    assert WellFormed(c');
    MatchSound(rest, s[j..], c');
    LiftFresh(t, s, c, r, j);
  }

  /** The new field at the head of `t` captured the first `j` characters;
      the result for the rest carries over to `t`. */
  lemma LiftFresh(t: Template, s: string, c: Captures, r: Captures, j: nat)
    requires WellFormed(c)
    requires t != [] && t[0].Field? && t[0].name !in c.vals
    requires 1 <= j <= |s|
    requires SoundResult(t[1..], s[j..], Bind(c, t[0].name, s[..j]), r)
    ensures SoundResult(t, s, c, r)
  {
    var rest := t[1..];
    var n := t[0].name;
    var c' := Bind(c, n, s[..j]);
    assert c'.vals.Keys == c.vals.Keys + {n};
    assert NewNames(t, c.vals.Keys) == [n] + NewNames(rest, c.vals.Keys + {n});
    ConcatAssoc(c.keys, [n], NewNames(rest, c.vals.Keys + {n}));
    assert Agrees(c, r.vals) by {
      assert Agrees(c', r.vals);
    }
    assert r.vals[n] == s[..j];
    assert Covers(t, r.vals) by {
      forall i | 0 <= i < |t| && t[i].Field? ensures t[i].name in r.vals {
        if i > 0 { assert rest[i - 1] == t[i]; }
      }
    }
    assert Render(t, r.vals) == r.vals[n] + Render(rest, r.vals);
    assert s == s[..j] + s[j..];
  }

  lemma ConcatAssoc(a: seq<string>, b: seq<string>, c: seq<string>)
    ensures (a + b) + c == a + (b + c)
  {
  }

  // ---------------------------------------------------------------------------
  // Completeness: an href that some values describe always matches

  lemma {:induction false} TryLengthsReaches(rest: Template, s: string, c: Captures, n: string, k: nat, j: nat)
    requires 1 <= k <= j <= |s|
    requires MatchFrom(rest, s[j..], Bind(c, n, s[..j])).Some?
    ensures TryLengths(rest, s, c, n, k).Some?
    decreases j - k
  {
    if k < j && MatchFrom(rest, s[k..], Bind(c, n, s[..k])).None? {
      TryLengthsReaches(rest, s, c, n, k + 1, j);
    }
  }

  lemma {:induction false} MatchComplete(t: Template, s: string, c: Captures, m: map<string, string>)
    requires Covers(t, m) && NonEmptyValues(t, m) && Render(t, m) == s
    requires Agrees(c, m)
    ensures MatchFrom(t, s, c).Some?
    decreases |t|
  {
    if t != [] {
      var rest := t[1..];
      assert Covers(rest, m) && NonEmptyValues(rest, m) by {
        forall i | 0 <= i < |rest| ensures rest[i] == t[i + 1] {}
      }
      match t[0]
      case Lit(x) =>
        assert s == x + Render(rest, m);
        assert s[|x|..] == Render(rest, m);
        MatchComplete(rest, s[|x|..], c, m);
      case Field(n) =>
        var v := m[n];
        assert s == v + Render(rest, m);
        assert s[|v|..] == Render(rest, m);
        if n in c.vals {
          MatchComplete(rest, s[|v|..], c, m);
        } else {
          assert v != "" by { assert t[0].Field?; }
          assert s[..|v|] == v;
          MatchComplete(rest, s[|v|..], Bind(c, n, v), m);
          TryLengthsReaches(rest, s, c, n, 1, |v|);
        }
    }
  }

  // ---------------------------------------------------------------------------
  // Round trip: substituting separable values and matching gives them back

  /** A shorter capture than the intended value leaves a href remainder that
      the rest of a separable format cannot match. */
  lemma ShortCaptureFails(t: Template, m: map<string, string>, c: Captures, k: nat)
    requires t != [] && t[0].Field? && Covers(t, m) && Separable(t, m)
    requires 1 <= k < |m[t[0].name]|
    ensures Covers(t[1..], m)
    ensures var s := m[t[0].name] + Render(t[1..], m);
      MatchFrom(t[1..], s[k..], Bind(c, t[0].name, s[..k])).None?
  {
    var rest := t[1..];
    assert Covers(rest, m) by {
      forall i | 0 <= i < |rest| ensures rest[i] == t[i + 1] {}
    }
    var v := m[t[0].name];
    var s := v + Render(rest, m);
    var tail := s[k..];
    assert tail[0] == v[k];
    if rest != [] {
      assert 0 < |t| - 1;
      var x := rest[0].text;
      assert rest[0] == t[1];
      if |t| == 2 {
        // The field is followed by the final literal: the remainder is
        // longer than that literal, so something is left over after it.
        assert rest[1..] == [];
        assert Render(rest, m) == x;
        assert |tail| > |x|;
      } else {
        assert x != [] && x[0] !in v;
        assert x[0] != tail[0];
        assert !(x <= tail);
      }
    }
  }

  lemma {:induction false} TryLengthsSkips(rest: Template, s: string, c: Captures, n: string, k: nat, j: nat)
    requires 1 <= k <= j <= |s|
    requires forall i :: k <= i < j ==> MatchFrom(rest, s[i..], Bind(c, n, s[..i])).None?
    ensures TryLengths(rest, s, c, n, k) == TryLengths(rest, s, c, n, j)
    decreases j - k
  {
    if k < j {
      TryLengthsSkips(rest, s, c, n, k + 1, j);
    }
  }

  lemma {:induction false} MatchRendered(t: Template, m: map<string, string>, c: Captures)
    requires Covers(t, m) && NonEmptyValues(t, m) && Separable(t, m)
    requires Agrees(c, m)
    ensures forall i :: 0 <= i < |NewNames(t, c.vals.Keys)| ==> NewNames(t, c.vals.Keys)[i] in m
    ensures MatchFrom(t, Render(t, m), c) == Some(Extend(c, NewNames(t, c.vals.Keys), m))
    decreases |t|
  {
    NewNamesSpec(t, c.vals.Keys);
    forall n | HasField(t, n) ensures n in m {
      var i :| 0 <= i < |t| && t[i] == Field(n);
    }
    if t != [] {
      var rest := t[1..];
      var s := Render(t, m);
      assert Covers(rest, m) && NonEmptyValues(rest, m) && Separable(rest, m) by {
        forall i | 0 <= i < |rest| ensures rest[i] == t[i + 1] {}
      }
      match t[0]
      case Lit(x) =>
        assert s[|x|..] == Render(rest, m);
        MatchRendered(rest, m, c);
      case Field(n) =>
        var v := m[n];
        assert s == v + Render(rest, m);
        assert s[|v|..] == Render(rest, m);
        if n in c.vals {
          MatchRendered(rest, m, c);
        } else {
          assert v != "" by { assert t[0].Field?; }
          assert s[..|v|] == v;
          var c' := Bind(c, n, v);
          assert c'.vals.Keys == c.vals.Keys + {n};
          MatchRendered(rest, m, c');
          forall i | 1 <= i < |v| ensures MatchFrom(rest, s[i..], Bind(c, n, s[..i])).None? {
            ShortCaptureFails(t, m, c, i);
          }
          TryLengthsSkips(rest, s, c, n, 1, |v|);
        }
    }
  }

  // ---------------------------------------------------------------------------
  // The same facts for `parse` itself

  /** A successful `parse` names exactly the format's fields, in order, with
      non-empty values that rebuild the href. */
  lemma ParseSound(t: Template, s: string)
    requires Parse(t, s).Some?
    ensures var r := Parse(t, s).value;
      && WellFormed(r) && r.keys == NamedFields(t)
      && Covers(t, r.vals) && NonEmptyValues(t, r.vals) && Render(t, r.vals) == s
  {
    MatchSound(t, s, NoCaptures);
    var r := Parse(t, s).value;
    assert NoCaptures.vals.Keys == {};
  }

  /** `parse` succeeds exactly when some non-empty field values make the
      format spell out the href. */
  lemma ParseMatchesIff(t: Template, s: string)
    ensures Parse(t, s).Some? <==>
      exists m :: Covers(t, m) && NonEmptyValues(t, m) && Render(t, m) == s
  {
    if Parse(t, s).Some? {
      ParseSound(t, s);
      var m := Parse(t, s).value.vals;
      assert Covers(t, m) && NonEmptyValues(t, m) && Render(t, m) == s;
    }
    forall m | Covers(t, m) && NonEmptyValues(t, m) && Render(t, m) == s
      ensures Parse(t, s).Some?
    {
      MatchComplete(t, s, NoCaptures, m);
    }
  }

  /** Rendering a format one token at a time. */
  lemma RenderCons(x: Token, rest: Template, m: map<string, string>)
    requires x.Field? ==> x.name in m
    requires Covers(rest, m)
    ensures Covers([x] + rest, m)
    ensures Render([x] + rest, m) == (if x.Lit? then x.text else m[x.name]) + Render(rest, m)
  {
    var t := [x] + rest;
    assert t[1..] == rest;
    forall i | 0 <= i < |t| && t[i].Field? ensures t[i].name in m {
      if i > 0 { assert t[i] == rest[i - 1]; }
    }
  }

  /** The names of a format one token at a time. */
  lemma NewNamesCons(x: Token, rest: Template, seen: set<string>)
    ensures NewNames([x] + rest, seen) ==
      if x.Lit? || x.name in seen then NewNames(rest, seen) else [x.name] + NewNames(rest, seen + {x.name})
  {
    assert ([x] + rest)[1..] == rest;
  }

  /** The values `m` gives the fields of `t`, in the order the fields first
      appear. */
  function FieldValues(t: Template, m: map<string, string>): (r: seq<string>)
    requires Covers(t, m)
    ensures |r| == |NamedFields(t)|
    ensures forall i :: 0 <= i < |r| ==> NamedFields(t)[i] in m && r[i] == m[NamedFields(t)[i]]
  {
    var names := NamedFields(t);
    assert forall i :: 0 <= i < |names| ==> names[i] in m by {
      NamedFieldsSpec(t);
      forall i | 0 <= i < |names| ensures names[i] in m {
        assert HasField(t, names[i]);
        var j :| 0 <= j < |t| && t[j] == Field(names[i]);
        assert t[j].Field?;
      }
    }
    seq(|names|, i requires 0 <= i < |names| => m[names[i]])
  }

  /** Parsing an href made by substituting separable values into the format
      gives back those values, keyed by the format's field names in order. */
  lemma ParseRendered(t: Template, m: map<string, string>)
    requires Covers(t, m) && NonEmptyValues(t, m) && Separable(t, m)
    ensures Parse(t, Render(t, m)).Some?
    ensures var r := Parse(t, Render(t, m)).value;
      && WellFormed(r)
      && r.keys == NamedFields(t)
      && (forall k :: k in r.vals ==> k in m && r.vals[k] == m[k])
      && Values(r) == FieldValues(t, m)
  {
    MatchRendered(t, m, NoCaptures);
    assert NoCaptures.vals.Keys == {};
    ParseSound(t, Render(t, m));
    ExtendSpec(NoCaptures, NamedFields(t), m);
    ValuesAgree(Parse(t, Render(t, m)).value, t, m);
  }

  /** Captures of the fields of `t` that agree with `m` list the values `m`
      gives those fields. */
  lemma ValuesAgree(r: Captures, t: Template, m: map<string, string>)
    requires WellFormed(r) && Covers(t, m) && r.keys == NamedFields(t)
    requires forall k :: k in r.vals ==> k in m && r.vals[k] == m[k]
    ensures Values(r) == FieldValues(t, m)
  {
  }
}
