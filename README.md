# exhaustive-prop-types, modelled in Dafny

This library makes a React component's `propTypes` exhaustive. `exhaustivePropTypes` takes the
component's schema, a mutable table from prop name to validator. It installs one extra
validator under the reserved key `_exhaustive-prop-types` and returns the same table. When the
host runtime later calls that validator with the props a component instance received, the
validator collects every supplied key that the table does not declare. The marker key itself
is never collected. The validator returns no error, a singular message or a plural message.
`exhaustive` does the same for a component: it overwrites `component.propTypes` with the
extended table and returns the component.

The project has four modules:

- `Wrappers` (`wrappers.dfy`): the `Option` result of a validator. `None` means the props are
  valid, and `Some(msg)` is the message of the returned `Error`.
- `Sequences` (`sequences.dfy`): `Distinct` and `IsSubsequence`, used to state that the report
  keeps the order of the supplied props.
- `Strings` (`strings.dfy`): `Join`, which is `Array.prototype.join`, and `SplitOn`, which cuts
  a string at a one-character separator. `SplitOn` is used only to read a message back and
  state what it contains.
- `ExhaustiveProps` (`exhaustive_props.dfy`): the model of `index.js`.
  - `InternalPropTypeField` is the marker key.
  - `Validator` is an opaque schema entry: `Declared(id)` for an author's validator, `Synthetic`
    for the installed one.
  - The reduce is modelled twice: `InvalidProps` is the specification, and `CollectInvalidProps`
    is the loop.
  - `ErrorMessage` builds the message, and `ParseErrorMessage` is its inverse.
  - `ExhaustiveCheck` is the validator's result, as a function of the table's current keys.
  - The class `PropTypes` holds the table in its field `entries`. Its method `Validate` is the
    body of the installed closure, which reads `entries` when it is called. By convention the
    token `Synthetic` stored under the marker key stands for that closure. Nothing in the model
    links the two: `Validate` never looks up the marker entry, and it can run whatever the table
    holds.
  - The class `Component` holds the field `propTypes`.
  - The methods `ExhaustivePropTypes` and `Exhaustive` update these objects in place.
  - The method `PersonClient` is a usage scenario with no contract of its own. It makes a
    component exhaustive and validates its props. It then adds a key to the table afterwards
    and shows that the validator sees the new key.

The supplied props are given as the sequence of their keys, in enumeration order. The
validator never looks at the values, so they are not modelled.

## Model

| member | source | states |
|---|---|---|
| `ExhaustiveProps.CollectInvalidProps` | index.js:17-22 | the reduce loop returns the reported names: its result is `InvalidProps`, it holds exactly the supplied keys that are neither declared nor the marker key, and it keeps their order |
| `ExhaustiveProps.InvalidPropsMembers` | index.js:17-22 | a name is reported if and only if it is supplied, is not a schema key, and is not the marker key |
| `ExhaustiveProps.MarkerNeverReported` | index.js:18 | the marker key is never reported, even when it is among the supplied props |
| `ExhaustiveProps.InvalidPropsSubsequence` | index.js:17-22 | the reported names are a subsequence of the supplied keys, so enumeration order is kept |
| `ExhaustiveProps.InvalidPropsUnique` | index.js:17-22 | for distinct keys, the report is the only order-preserving selection of the supplied keys that holds exactly the undeclared ones |
| `ExhaustiveProps.InvalidPropsIgnoresMarker` | index.js:15-22 | whether the marker key is in the schema does not change the report |
| `ExhaustiveProps.ErrorMessage` | index.js:24-33 | there is no error exactly when no names are reported |
| `ExhaustiveProps.ErrorMessageRoundTrip` | index.js:24-31 | every message can be read back into exactly the reported names, in order, and the component name; singular and plural messages are told apart |
| `ExhaustiveProps.NoErrorIffAllDeclared` | index.js:17-33 | the validator returns no error if and only if every supplied prop is declared or is the marker key |
| `ExhaustiveProps.SingleInvalidMessage` | index.js:17-27 | with exactly one undeclared key `k`, the message is "The prop \`k\` isn't defined in \`C\` propTypes." |
| `ExhaustiveProps.PluralInvalidMessage` | index.js:17-31 | with two or more undeclared keys, the message is "The props \`", then the undeclared keys in supplied order joined by "\`, \`", then "\` aren't defined in \`C\` propTypes." |
| `ExhaustiveProps.ReportedNames` | index.js:17-31 | any error produced reads back as the component name and as exactly `InvalidProps`: the undeclared supplied keys, in their order |
| `ExhaustiveProps.CheckIgnoresMarker` | index.js:15-18 | installing the marker key into the schema does not change what the validator reports |
| `ExhaustiveProps.PersonOneUnknown` | index.js:24-27 | schema {name}, props name and age, component Person: the singular message for `age` |
| `ExhaustiveProps.PersonTwoUnknown` | index.js:28-31 | schema {name}, props name, age and id: the plural message for `age` and `id` |
| `ExhaustiveProps.PersonAllDeclared` | index.js:24-33 | schema {name, age}, props name and age: no error |
| `ExhaustiveProps.Extend` | index.js:15 | the extended table has the old keys plus the marker key; the marker maps to the synthetic validator; every other entry is unchanged |
| `ExhaustiveProps.ExtendIdempotent` | index.js:15 | extending a table a second time changes nothing |
| `ExhaustiveProps.ExtendKeepsCheck` | index.js:15-22 | the validator of an extended table reports what a check against the original keys would, and a second extension keeps that behaviour |
| `ExhaustiveProps.PropTypes.Validate` | index.js:15-33 | the installed validator returns `ExhaustiveCheck` of the table's keys at call time; it returns no error exactly when every supplied prop is a key of the table or the marker key |
| `ExhaustiveProps.ExhaustivePropTypes` | index.js:12-36 | the table is updated in place to `Extend` of its old contents, and the same object is returned |
| `ExhaustiveProps.Exhaustive` | index.js:43-46 | `component.propTypes` still refers to the same table, that table is now extended, and the same component is returned |

## Left out

- `module.exports` (index.js:49-52) is module plumbing and is not modelled.
- The validator's `Error` object is modelled as the message it carries (`Some(msg)`). An
  `undefined` return is modelled as `None`.
- Declared validators are opaque tokens and are never called. Running them is the job of the
  host PropTypes runtime, which is not part of this model, and neither is its reporting of
  validator results as warnings.
- The installed closure is the token `Synthetic`. By convention, its behaviour is
  `PropTypes.Validate` run on the table that holds it; the model states no formal link. In
  JavaScript the closure keeps checking its original table even
  after it is copied into another one. The model does not capture that aliasing.
- Own-property lookup (`hasOwnProperty`) is modelled as membership in the table's key set.
  Prototype-chain subtleties are not modelled.
- The order rules of `Object.keys` are not modelled. The supplied props are given as a
  sequence of keys in enumeration order. Their values are never inspected, so they are left
  out as well.
- A null or undefined schema or component is not modelled. In JavaScript, writing a property
  into such a value throws a `TypeError`, including a component whose `propTypes` is
  undefined. The model's object types are non-null.
- `componentName` is taken as a string. JavaScript's conversion of a non-string name, such as
  `undefined`, into the message is not modelled.
- `ErrorMessageRoundTrip`, `ReportedNames`: these read a message back only when neither the
  reported names nor the component name contain a backtick. Declared props may contain
  backticks. A backtick inside a reported name makes the message itself ambiguous.
- Dafny strings are sequences of Unicode scalar values, not JavaScript's UTF-16 code units. So
  prop names and component names that contain lone surrogates cannot be represented.
- `ExhaustivePropTypes` always succeeds. In strict mode (index.js:13), writing the marker entry
  into a frozen or non-extensible `propTypes` object (index.js:15) throws a `TypeError`. The
  model has no frozen tables and does not model that failure.
