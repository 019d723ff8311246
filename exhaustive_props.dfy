/** Exhaustive prop types: a schema of declared props is extended with one internal entry whose
    validator reports every supplied prop that the schema does not declare. */
module ExhaustiveProps {
  import opened Wrappers
  import opened Sequences
  import opened Strings

  /** The reserved schema key under which the synthetic validator is stored. */
  const InternalPropTypeField: string := "_exhaustive-prop-types"

  /** A schema entry. `Declared` stands for a validator supplied by the component's author, which this
      model never calls; `Synthetic` is the validator installed by ExhaustivePropTypes, a closure over the
      very schema it is stored in (its behaviour is PropTypes.Validate). */
  datatype Validator = Declared(id: nat) | Synthetic

  // ---------------------------------------------------------------------------------------------
  // The unknown-prop filter
  // ---------------------------------------------------------------------------------------------

  /** A supplied prop is reported when the schema has no own entry for it and it is not the marker key. */
  predicate IsInvalidProp(declared: set<string>, prop: string)
  {
    prop !in declared && prop != InternalPropTypeField
  }

  /** The reduce over the supplied keys: the accumulator grows by one key at a time, in enumeration order. */
  function InvalidProps(declared: set<string>, props: seq<string>): seq<string>
    decreases |props|
  {
    if props == [] then []
    else
      var acc := InvalidProps(declared, props[..|props| - 1]);
      var prop := props[|props| - 1];
      if IsInvalidProp(declared, prop) then acc + [prop] else acc
  }

  /** A name is reported exactly when it is supplied and undeclared (and not the marker key). */
  lemma {:induction false} InvalidPropsMembers(declared: set<string>, props: seq<string>)
    ensures forall x :: x in InvalidProps(declared, props) <==> x in props && IsInvalidProp(declared, x)
    decreases |props|
  {
    if props != [] {
      var init := props[..|props| - 1];
      InvalidPropsMembers(declared, init);
      assert props == init + [props[|props| - 1]];
    }
  }

  /** The marker key is never reported, even when it is among the supplied props. */
  lemma {:induction false} MarkerNeverReported(declared: set<string>, props: seq<string>)
    ensures InternalPropTypeField !in InvalidProps(declared, props)
  {
    InvalidPropsMembers(declared, props);
  }

  /** The reported names keep the supplied props' enumeration order. */
  lemma {:induction false} InvalidPropsSubsequence(declared: set<string>, props: seq<string>)
    ensures IsSubsequence(InvalidProps(declared, props), props)
    decreases |props|
  {
    if props != [] {
      var init := props[..|props| - 1];
      var prop := props[|props| - 1];
      var acc := InvalidProps(declared, init);
      InvalidPropsSubsequence(declared, init);
      if IsInvalidProp(declared, prop) {
        assert (acc + [prop])[..|acc|] == acc;
      } else if acc != [] {
        InvalidPropsMembers(declared, init);
        assert acc[|acc| - 1] in acc;
      }
    }
  }

  /** With distinct props, the report is the only order-preserving selection of the props that
      holds exactly the undeclared ones. */
  lemma {:induction false} InvalidPropsUnique(declared: set<string>, props: seq<string>, s: seq<string>)
    requires Distinct(props)
    requires IsSubsequence(s, props)
    requires forall x :: x in s <==> x in props && IsInvalidProp(declared, x)
    ensures s == InvalidProps(declared, props)
    decreases |props|
  {
    if props != [] {
      var n := |props|;
      var init := props[..n - 1];
      var prop := props[n - 1];
      assert props == init + [prop];
      assert Distinct(init);
      assert prop !in init;
      SubsequenceDistinct(s, props);
      if IsInvalidProp(declared, prop) {
        assert prop in s;
        if IsSubsequence(s, init) {
          SubsequenceMembers(s, init);
          assert false;
        }
        var s' := s[..|s| - 1];
        assert s[|s| - 1] == prop && IsSubsequence(s', init);
        assert s == s' + [prop];
        forall x
          ensures x in s' <==> x in init && IsInvalidProp(declared, x)
        {
          if x in s' {
            var i :| 0 <= i < |s'| && s'[i] == x;
            assert s[i] == x && s[|s| - 1] == prop;
            assert x in s && x != prop;
            assert x in init;
          }
          if x in init && IsInvalidProp(declared, x) {
            assert x in props && x != prop;
            assert x in s;
          }
        }
        InvalidPropsUnique(declared, init, s');
      } else {
        if s != [] {
          assert s[|s| - 1] in s;
        }
        assert IsSubsequence(s, init);
        InvalidPropsUnique(declared, init, s);
      }
    }
  }

  /** The marker key in the schema makes no difference to the report: it is excluded either way. */
  lemma {:induction false} InvalidPropsIgnoresMarker(declared: set<string>, props: seq<string>)
    ensures InvalidProps(declared + {InternalPropTypeField}, props) == InvalidProps(declared, props)
    decreases |props|
  {
    if props != [] {
      InvalidPropsIgnoresMarker(declared, props[..|props| - 1]);
    }
  }

  /** The reduce over Object.keys(props), run as a loop over the supplied keys. */
  method CollectInvalidProps(declared: set<string>, props: seq<string>) returns (invalid: seq<string>)
    ensures invalid == InvalidProps(declared, props)
    ensures forall x :: x in invalid <==> x in props && IsInvalidProp(declared, x)
    ensures IsSubsequence(invalid, props)
  {
    invalid := [];
    for i := 0 to |props|
      invariant invalid == InvalidProps(declared, props[..i])
    {
      assert props[..i + 1][..i] == props[..i];
      if IsInvalidProp(declared, props[i]) {
        invalid := invalid + [props[i]];
      }
    }
    assert props[..|props|] == props;
    InvalidPropsMembers(declared, props);
    InvalidPropsSubsequence(declared, props);
  }

  // ---------------------------------------------------------------------------------------------
  // The error message
  // ---------------------------------------------------------------------------------------------

  /** The separator between backtick-quoted names in the plural message. */
  const NameSeparator: string := "`, `"

  /** No error for no invalid props, a singular message for one, a plural message for several. */
  function ErrorMessage(invalid: seq<string>, componentName: string): (r: Option<string>)
    ensures r.None? <==> invalid == []
  {
    if |invalid| == 1 then
      Some("The prop `" + invalid[0] + "` isn't defined in `" + componentName + "` propTypes.")
    else if |invalid| > 1 then
      Some("The props `" + Join(invalid, NameSeparator) + "` aren't defined in `" + componentName + "` propTypes.")
    else
      None
  }

  /** The names with ", " between them, as they appear between backticks in the plural message. */
  function Interleave(names: seq<string>): (pieces: seq<string>)
    requires names != []
    ensures |pieces| == 2 * |names| - 1
  {
    if |names| == 1 then [names[0]] else [names[0], ", "] + Interleave(names[1..])
  }

  /** Reads the names back from the pieces between backticks that Interleave produces. */
  function Deinterleave(pieces: seq<string>): Option<seq<string>>
    decreases |pieces|
  {
    if |pieces| == 1 then Some([pieces[0]])
    else if |pieces| >= 3 && pieces[1] == ", " then
      match Deinterleave(pieces[2..])
      case Some(rest) => Some([pieces[0]] + rest)
      case None => None
    else None
  }

  /** Reads an error message, split at its backticks, back into the names it reports and the
      component it names. */
  function ParsePieces(pieces: seq<string>): Option<(seq<string>, string)>
  {
    var n := |pieces|;
    if n < 5 then None
    else if n == 5 && pieces[0] == "The prop " && pieces[2] == " isn't defined in " && pieces[4] == " propTypes." then
      Some(([pieces[1]], pieces[3]))
    else if pieces[0] == "The props " && pieces[n - 3] == " aren't defined in " && pieces[n - 1] == " propTypes." then
      match Deinterleave(pieces[1..n - 3])
      case Some(names) => if |names| >= 2 then Some((names, pieces[n - 2])) else None
      case None => None
    else None
  }

  /** Reads an error message back into the names it reports and the component it names. */
  function ParseErrorMessage(msg: string): Option<(seq<string>, string)>
  {
    ParsePieces(SplitOn(msg, '`'))
  }

  /** Neither a name nor the component name contains a backtick, so the message is unambiguous. */
  predicate Unquoted(names: seq<string>, componentName: string)
  {
    '`' !in componentName && forall i :: 0 <= i < |names| ==> '`' !in names[i]
  }

  lemma {:induction false} DeinterleaveInterleave(names: seq<string>)
    requires names != []
    ensures Deinterleave(Interleave(names)) == Some(names)
    decreases |names|
  {
    if |names| > 1 {
      DeinterleaveInterleave(names[1..]);
      var pieces := Interleave(names);
      assert |pieces| >= 3 && pieces[0] == names[0] && pieces[1] == ", ";
      assert pieces[2..] == Interleave(names[1..]);
      assert Deinterleave(pieces) == Some([pieces[0]] + names[1..]);
      assert [names[0]] + names[1..] == names;
    } else {
      assert names == [names[0]];
    }
  }

  lemma {:induction false} JoinInterleave(names: seq<string>)
    requires names != []
    ensures Join(Interleave(names), "`") == Join(names, NameSeparator)
    decreases |names|
  {
    if |names| > 1 {
      JoinInterleave(names[1..]);
      var tail := Interleave(names[1..]);
      assert Interleave(names)[1..] == [", "] + tail;
      assert ([", "] + tail)[1..] == tail;
      assert Join([", "] + tail, "`") == ", " + "`" + Join(tail, "`");
    }
  }

  lemma {:induction false} InterleaveUnquoted(names: seq<string>)
    requires names != []
    requires forall i :: 0 <= i < |names| ==> '`' !in names[i]
    ensures forall i :: 0 <= i < |Interleave(names)| ==> '`' !in Interleave(names)[i]
    decreases |names|
  {
    if |names| > 1 {
      InterleaveUnquoted(names[1..]);
      var pieces := Interleave(names);
      forall i | 0 <= i < |pieces|
        ensures '`' !in pieces[i]
      {
        if i >= 2 {
          assert pieces[i] == Interleave(names[1..])[i - 2];
        }
      }
    }
  }

  /** The singular message is its pieces joined with backticks. */
  lemma SingularMessageText(name: string, componentName: string)
    ensures "The prop `" + name + "` isn't defined in `" + componentName + "` propTypes." ==
            Join(["The prop ", name, " isn't defined in ", componentName, " propTypes."], "`")
  {
    JoinFive("The prop ", name, " isn't defined in ", componentName, " propTypes.", "`");
    assert "The prop `" == "The prop " + "`";
    assert "` isn't defined in `" == "`" + " isn't defined in " + "`";
    assert "` propTypes." == "`" + " propTypes.";
  }

  /** The singular message splits at its backticks into the fixed words, the name and the component. */
  lemma SingularMessagePieces(name: string, componentName: string)
    requires '`' !in name && '`' !in componentName
    ensures SplitOn("The prop `" + name + "` isn't defined in `" + componentName + "` propTypes.", '`') ==
            ["The prop ", name, " isn't defined in ", componentName, " propTypes."]
  {
    SingularMessageText(name, componentName);
    SplitJoin(["The prop ", name, " isn't defined in ", componentName, " propTypes."], '`');
  }

  /** Joining the pieces of the plural message with backticks: the head, one backtick, the names
      with their separators, one backtick, and the quoted tail. */
  lemma PluralPiecesJoin(head: string, names: seq<string>, tail: seq<string>)
    requires |names| >= 2 && tail != []
    ensures Join([head] + Interleave(names) + tail, "`") ==
            head + "`" + (Join(names, NameSeparator) + "`" + Join(tail, "`"))
  {
    var mid := Interleave(names);
    JoinAppend(mid, tail, "`");
    JoinInterleave(names);
    JoinAppend([head], mid + tail, "`");
    assert [head] + mid + tail == [head] + (mid + tail);
  }

  /** The plural message is the join, with backticks, of its fixed words, the interleaved names and
      the component. */
  lemma PluralMessageJoin(head: string, names: seq<string>, middle: string, componentName: string, end: string)
    requires |names| >= 2
    ensures Join([head] + Interleave(names) + [middle, componentName, end], "`") ==
            (head + "`") + Join(names, NameSeparator) + ("`" + middle + "`") + componentName + ("`" + end)
  {
    JoinThree(middle, componentName, end, "`");
    PluralPiecesJoin(head, names, [middle, componentName, end]);
    Reassociate(head, Join(names, NameSeparator), middle, componentName, end);
  }

  lemma Reassociate(h: string, j: string, m: string, c: string, e: string)
    ensures h + "`" + (j + "`" + (m + "`" + c + "`" + e)) == (h + "`") + j + ("`" + m + "`") + c + ("`" + e)
  {
  }

  /** The pieces between the backticks of the plural message. */
  function PluralPieces(names: seq<string>, componentName: string): seq<string>
    requires names != []
  {
    ["The props "] + Interleave(names) + [" aren't defined in ", componentName, " propTypes."]
  }

  /** The plural message is its pieces joined with backticks. */
  lemma PluralMessageText(names: seq<string>, componentName: string)
    requires |names| >= 2
    ensures ErrorMessage(names, componentName) == Some(Join(PluralPieces(names, componentName), "`"))
  {
    PluralMessageJoin("The props ", names, " aren't defined in ", componentName, " propTypes.");
    assert "The props `" == "The props " + "`";
    assert "` aren't defined in `" == "`" + " aren't defined in " + "`";
    assert "` propTypes." == "`" + " propTypes.";
  }

  /** The plural message splits at its backticks into its fixed words, the names with their
      separators, and the component. */
  lemma PluralMessagePieces(names: seq<string>, componentName: string)
    requires |names| >= 2
    requires Unquoted(names, componentName)
    ensures SplitOn(ErrorMessage(names, componentName).value, '`') == PluralPieces(names, componentName)
  {
    var mid := Interleave(names);
    var parts := PluralPieces(names, componentName);
    PluralMessageText(names, componentName);
    InterleaveUnquoted(names);
    forall i | 0 <= i < |parts|
      ensures '`' !in parts[i]
    {
      if 1 <= i < 1 + |mid| {
        assert parts[i] == mid[i - 1];
      }
    }
    SplitJoin(parts, '`');
  }

  lemma PluralPiecesParse(names: seq<string>, componentName: string)
    requires |names| >= 2
    ensures ParsePieces(PluralPieces(names, componentName)) == Some((names, componentName))
  {
    var parts := PluralPieces(names, componentName);
    var n := |parts|;
    assert parts[1..n - 3] == Interleave(names);
    assert parts[0] == "The props " && parts[n - 3] == " aren't defined in ";
    assert parts[n - 2] == componentName && parts[n - 1] == " propTypes.";
    DeinterleaveInterleave(names);
  }

  /** The message names exactly the invalid props, in order, and the component: reading it back
      gives them again. */
  lemma ErrorMessageRoundTrip(invalid: seq<string>, componentName: string)
    requires invalid != []
    requires Unquoted(invalid, componentName)
    ensures ErrorMessage(invalid, componentName).Some?
    ensures ParseErrorMessage(ErrorMessage(invalid, componentName).value) == Some((invalid, componentName))
  {
    if |invalid| == 1 {
      SingularMessagePieces(invalid[0], componentName);
      assert [invalid[0]] == invalid;
    } else {
      PluralMessagePieces(invalid, componentName);
      PluralPiecesParse(invalid, componentName);
    }
  }

  // ---------------------------------------------------------------------------------------------
  // The synthetic validator, as a function of the schema's current keys
  // ---------------------------------------------------------------------------------------------

  /** What the synthetic validator returns when the schema's own keys are `declared`. */
  function ExhaustiveCheck(declared: set<string>, props: seq<string>, componentName: string): Option<string>
  {
    ErrorMessage(InvalidProps(declared, props), componentName)
  }

  /** No error exactly when every supplied prop is declared or is the marker key. */
  lemma NoErrorIffAllDeclared(declared: set<string>, props: seq<string>, componentName: string)
    ensures ExhaustiveCheck(declared, props, componentName).None? <==>
            forall p :: p in props ==> p in declared || p == InternalPropTypeField
  {
    InvalidPropsMembers(declared, props);
    var invalid := InvalidProps(declared, props);
    if invalid != [] {
      assert invalid[0] in invalid;
    }
  }

  /** With exactly one undeclared key `k` among distinct props, the singular message names `k`. */
  lemma SingleInvalidMessage(declared: set<string>, props: seq<string>, componentName: string, k: string)
    requires Distinct(props)
    requires k in props && IsInvalidProp(declared, k)
    requires forall p :: p in props && p != k ==> !IsInvalidProp(declared, p)
    ensures ExhaustiveCheck(declared, props, componentName) ==
            Some("The prop `" + k + "` isn't defined in `" + componentName + "` propTypes.")
  {
    SingletonSubsequence(k, props);
    InvalidPropsUnique(declared, props, [k]);
  }

  /** With two or more undeclared keys among distinct props, the plural message lists them all,
      each in backticks, in the order they were supplied. */
  lemma PluralInvalidMessage(declared: set<string>, props: seq<string>, componentName: string, names: seq<string>)
    requires Distinct(props)
    requires |names| >= 2 && IsSubsequence(names, props)
    requires forall x :: x in names <==> x in props && IsInvalidProp(declared, x)
    ensures ExhaustiveCheck(declared, props, componentName) ==
            Some("The props `" + Join(names, "`, `") + "` aren't defined in `" + componentName + "` propTypes.")
  {
    InvalidPropsUnique(declared, props, names);
  }

  /** Any error that is produced reads back as exactly the undeclared supplied props, in their
      supplied order, and the component's name. */
  lemma ReportedNames(declared: set<string>, props: seq<string>, componentName: string)
    requires '`' !in componentName
    requires forall x :: x in props && IsInvalidProp(declared, x) ==> '`' !in x
    ensures match ExhaustiveCheck(declared, props, componentName)
            case None => true
            case Some(msg) =>
              var parsed := ParseErrorMessage(msg);
              && parsed.Some?
              && parsed.value.0 == InvalidProps(declared, props)
              && parsed.value.1 == componentName
              && IsSubsequence(parsed.value.0, props)
              && forall x :: x in parsed.value.0 <==> x in props && IsInvalidProp(declared, x)
  {
    var invalid := InvalidProps(declared, props);
    InvalidPropsMembers(declared, props);
    InvalidPropsSubsequence(declared, props);
    if invalid != [] {
      forall i | 0 <= i < |invalid|
        ensures '`' !in invalid[i]
      {
        assert invalid[i] in invalid;
      }
      ErrorMessageRoundTrip(invalid, componentName);
    }
  }

  /** Installing the marker key does not change what the synthetic validator reports. */
  lemma CheckIgnoresMarker(declared: set<string>, props: seq<string>, componentName: string)
    ensures ExhaustiveCheck(declared + {InternalPropTypeField}, props, componentName) ==
            ExhaustiveCheck(declared, props, componentName)
  {
    InvalidPropsIgnoresMarker(declared, props);
  }

  /** `Person` declares `name` and is given `name` and `age`: `age` is reported on its own. */
  lemma PersonOneUnknown()
    ensures ExhaustiveCheck({"name", InternalPropTypeField}, ["name", "age"], "Person") ==
            Some("The prop `age` isn't defined in `Person` propTypes.")
  {
    assert ["name", "age"][..1] == ["name"] && ["name"][..0] == [];
    assert InvalidProps({"name", InternalPropTypeField}, ["name", "age"]) == ["age"];
    // the message text, one concatenation at a time
    assert "The prop `" + "age" == "The prop `age";
    assert "The prop `age" + "` isn't defined in `" == "The prop `age` isn't defined in `";
    assert "The prop `age` isn't defined in `" + "Person" == "The prop `age` isn't defined in `Person";
    assert "The prop `age` isn't defined in `Person" + "` propTypes." == "The prop `age` isn't defined in `Person` propTypes.";
  }

  /** `Person` declares `name` and is given `name`, `age` and `id`: both others are reported. */
  lemma PersonTwoUnknown()
    ensures ExhaustiveCheck({"name", InternalPropTypeField}, ["name", "age", "id"], "Person") ==
            Some("The props `age`, `id` aren't defined in `Person` propTypes.")
  {
    PersonTwoUnknownNames();
    assert ["age", "id"][1..] == ["id"];
    assert "age" + "`, `" == "age`, `";
    assert "age`, `" + "id" == "age`, `id";
    // the message text, one concatenation at a time
    assert "The props `" + "age`, `id" == "The props `age`, `id";
    assert "The props `age`, `id" + "` aren't defined in `" == "The props `age`, `id` aren't defined in `";
    assert "The props `age`, `id` aren't defined in `" + "Person" == "The props `age`, `id` aren't defined in `Person";
    assert "The props `age`, `id` aren't defined in `Person" + "` propTypes." == "The props `age`, `id` aren't defined in `Person` propTypes.";
  }

  lemma PersonTwoUnknownNames()
    ensures InvalidProps({"name", InternalPropTypeField}, ["name", "age", "id"]) == ["age", "id"]
  {
    assert ["name", "age", "id"][..2] == ["name", "age"];
    assert ["name", "age"][..1] == ["name"] && ["name"][..0] == [];
  }

  /** `Person` declares `name` and `age` and is given both: no error. */
  lemma PersonAllDeclared()
    ensures ExhaustiveCheck({"name", "age", InternalPropTypeField}, ["name", "age"], "Person") == None
  {
    assert ["name", "age"][..1] == ["name"] && ["name"][..0] == [];
  }

  // ---------------------------------------------------------------------------------------------
  // The schema and its extension
  // ---------------------------------------------------------------------------------------------

  /** The schema after the synthetic entry is installed. */
  function Extend(entries: map<string, Validator>): (r: map<string, Validator>)
    ensures r.Keys == entries.Keys + {InternalPropTypeField}
    ensures r[InternalPropTypeField] == Synthetic
    ensures forall k :: k in entries && k != InternalPropTypeField ==> r[k] == entries[k]
  {
    entries[InternalPropTypeField := Synthetic]
  }

  /** Extending a second time changes nothing. */
  lemma ExtendIdempotent(entries: map<string, Validator>)
    ensures Extend(Extend(entries)) == Extend(entries)
  {
  }

  /** The synthetic validator of an extended schema reports what a check against the schema's
      original keys would, and a second extension keeps that behaviour. */
  lemma ExtendKeepsCheck(entries: map<string, Validator>, props: seq<string>, componentName: string)
    ensures ExhaustiveCheck(Extend(entries).Keys, props, componentName) ==
            ExhaustiveCheck(entries.Keys, props, componentName)
    ensures ExhaustiveCheck(Extend(Extend(entries)).Keys, props, componentName) ==
            ExhaustiveCheck(Extend(entries).Keys, props, componentName)
  {
    CheckIgnoresMarker(entries.Keys, props, componentName);
    ExtendIdempotent(entries);
  }

  /** A component's propTypes object: a mutable table from prop name to validator. */
  class PropTypes {
    var entries: map<string, Validator>

    constructor (entries: map<string, Validator>)
      ensures this.entries == entries
    {
      this.entries := entries;
    }

    /** The synthetic validator's body. It closes over this object, so it checks against the keys
        the table has when it is called. `propName` is the marker key and does not matter. */
    method Validate(props: seq<string>, propName: string, componentName: string) returns (err: Option<string>)
      ensures err == ExhaustiveCheck(entries.Keys, props, componentName)
      ensures err.None? <==> forall p :: p in props ==> p in entries || p == InternalPropTypeField
    {
      var invalid := CollectInvalidProps(entries.Keys, props);
      err := ErrorMessage(invalid, componentName);
      NoErrorIffAllDeclared(entries.Keys, props, componentName);
    }
  }

  /** Installs the synthetic validator under the marker key, in place, and returns the same table. */
  method ExhaustivePropTypes(propTypes: PropTypes) returns (r: PropTypes)
    modifies propTypes
    ensures r == propTypes
    ensures propTypes.entries == Extend(old(propTypes.entries))
  {
    propTypes.entries := propTypes.entries[InternalPropTypeField := Synthetic];
    r := propTypes;
  }

  /** A component, of which only its propTypes field matters here. */
  class Component {
    var propTypes: PropTypes

    constructor (propTypes: PropTypes)
      ensures this.propTypes == propTypes
    {
      this.propTypes := propTypes;
    }
  }

  /** Makes a component's propTypes exhaustive and returns the same component. */
  method Exhaustive(component: Component) returns (r: Component)
    modifies component, component.propTypes
    ensures r == component
    ensures component.propTypes == old(component.propTypes)
    ensures component.propTypes.entries == Extend(old(component.propTypes.entries))
  {
    component.propTypes := ExhaustivePropTypes(component.propTypes);
    r := component;
  }

  /** A client of the two entry points: the table is extended in place, and the synthetic
      validator sees keys added to the table afterwards. */
  method PersonClient()
  {
    var schema := new PropTypes(map["name" := Declared(0)]);
    var person := new Component(schema);
    var same := Exhaustive(person);
    assert same == person && person.propTypes == schema;
    assert schema.entries.Keys == {"name", InternalPropTypeField};
    var err := schema.Validate(["name", "age"], InternalPropTypeField, "Person");
    PersonOneUnknown();
    assert err == Some("The prop `age` isn't defined in `Person` propTypes.");
    schema.entries := schema.entries["age" := Declared(1)];
    assert schema.entries.Keys == {"name", "age", InternalPropTypeField};
    err := schema.Validate(["name", "age"], InternalPropTypeField, "Person");
    assert err == None;
  }
}
