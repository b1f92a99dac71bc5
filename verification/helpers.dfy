/** The pure helpers of `_search_app/src/lib/helpers.js`: decoding the URL
    search parameters into an insertion-ordered map, `snakeToTitleCase`, and
    `getAttribute`. (`PoppableMap.pop` is `OrderedMaps.Pop`.) */
module Helpers {
  import opened Wrappers
  import opened Sequences
  import opened Strings
  import opened OrderedMaps
  import U = UrlSearchParams

  /** A key ending in `[]` names a multi-valued (array) parameter. */
  predicate IsArrayKey(k: string) {
    EndsWith(k, "[]")
  }

  /** A decoded parameter value: a string, or an array of strings. */
  datatype ParamValue = One(value: string) | Many(values: seq<string>) {
    /** The value as a list; a lone string counts as a one-element list. */
    function AsList(): (r: seq<string>)
      ensures One? ==> r == [value]
      ensures Many? ==> r == values
    {
      match this
      case One(v) => [v]
      case Many(vs) => vs
    }
  }

  type Params = OrderedMap<string, ParamValue>

  /** What decoding always produces: distinct keys, and arrays exactly under
      array keys. */
  predicate WellFormed(params: Params) {
    && Valid(params)
    && forall i :: 0 <= i < |params| ==> (IsArrayKey(params[i].0) <==> params[i].1.Many?)
  }

  /** The decoded map and the keys for which a duplicate warning was logged. */
  datatype Decoded = Decoded(params: Params, warnings: seq<string>)

  /** One step of the `forEach` over the search-param entries. */
  function AddPair(d: Decoded, k: string, v: string): Decoded {
    match Get(d.params, k)
    case None =>
      Decoded(Set(d.params, k, if IsArrayKey(k) then Many([v]) else One(v)), d.warnings)
    case Some(current) =>
      if IsArrayKey(k) then Decoded(Set(d.params, k, Many(current.AsList() + [v])), d.warnings)
      else Decoded(d.params, d.warnings + [k])
  }

  /** `getUrlSearchParams()` over the decoded pairs of the query string. */
  function GetUrlSearchParams(pairs: U.Pairs): Decoded {
    if |pairs| == 0 then Decoded([], [])
    else
      var last := pairs[|pairs| - 1];
      AddPair(GetUrlSearchParams(pairs[..|pairs| - 1]), last.0, last.1)
  }

  /** How one step changes the value of a key. */
  lemma AddPairGet(d: Decoded, k: string, v: string, k': string)
    ensures Get(AddPair(d, k, v).params, k') ==
      if k' != k then Get(d.params, k')
      else match Get(d.params, k)
        case None => Some(if IsArrayKey(k) then Many([v]) else One(v))
        case Some(c) => if IsArrayKey(k) then Some(Many(c.AsList() + [v])) else Some(c)
  {
    match Get(d.params, k)
    case None =>
      SetGet(d.params, k, if IsArrayKey(k) then Many([v]) else One(v), k');
    case Some(c) =>
      if IsArrayKey(k) {
        SetGet(d.params, k, Many(c.AsList() + [v]), k');
      }
  }

  /** The decoding of a non-empty list is one step on the decoding of its prefix. */
  lemma DecodeLast(pairs: U.Pairs)
    requires |pairs| > 0
    ensures GetUrlSearchParams(pairs) ==
      AddPair(GetUrlSearchParams(pairs[..|pairs| - 1]), pairs[|pairs| - 1].0, pairs[|pairs| - 1].1)
  {
  }

  /** The value each key decodes to: all of its values, in order, for an array
      key; the first value for any other key; nothing for an absent key. */
  lemma {:induction false} DecodeValue(pairs: U.Pairs, k: string)
    ensures Get(GetUrlSearchParams(pairs).params, k) ==
      var vs := U.GetAll(pairs, k);
      if |vs| == 0 then None
      else if IsArrayKey(k) then Some(Many(vs))
      else Some(One(vs[0]))
  {
    if |pairs| > 0 {
      var prefix := pairs[..|pairs| - 1];
      var last := pairs[|pairs| - 1];
      var before := U.GetAll(prefix, k);
      DecodeLast(pairs);
      U.GetAllLast(pairs, k);
      DecodeValue(prefix, k);
      AddPairGet(GetUrlSearchParams(prefix), last.0, last.1, k);
      if last.0 == k {
        assert U.GetAll(pairs, k) == before + [last.1];
        if |before| == 0 {
          assert before + [last.1] == [last.1];
        } else {
          assert (before + [last.1])[0] == before[0];
        }
      } else {
        assert U.GetAll(pairs, k) == before;
      }
    }
  }

  /** How one step changes the key order. */
  lemma AddPairKeys(d: Decoded, k: string, v: string)
    ensures Keys(AddPair(d, k, v).params) ==
      if Has(d.params, k) then Keys(d.params) else Keys(d.params) + [k]
  {
    match Get(d.params, k)
    case None =>
      SetKeys(d.params, k, if IsArrayKey(k) then Many([v]) else One(v));
    case Some(c) =>
      if IsArrayKey(k) {
        SetKeys(d.params, k, Many(c.AsList() + [v]));
      }
  }

  /** The keys are distinct and ordered by first appearance in `names`. */
  predicate FirstAppearanceOrder(keys: seq<string>, names: seq<string>) {
    && Distinct(keys)
    && (forall i :: 0 <= i < |keys| ==> keys[i] in names)
    && (forall i :: 0 <= i < |names| ==> names[i] in keys)
    && forall i, j :: 0 <= i < j < |keys| ==> IndexOf(names, keys[i]) < IndexOf(names, keys[j])
  }

  /** A name seen before leaves the first-appearance order as it is. */
  lemma FirstAppearanceOrderSeen(keys: seq<string>, names: seq<string>, k: string)
    requires FirstAppearanceOrder(keys, names) && k in names
    ensures FirstAppearanceOrder(keys, names + [k])
  {
    forall i | 0 <= i < |keys|
      ensures IndexOf(names + [k], keys[i]) == IndexOf(names, keys[i])
    {
      IndexOfAppend(names, k, keys[i]);
    }
    forall i | 0 <= i < |names + [k]|
      ensures (names + [k])[i] in keys
    {
      if i < |names| {
        assert (names + [k])[i] == names[i];
      }
    }
  }

  /** A new name goes last in the first-appearance order. */
  lemma FirstAppearanceOrderNew(keys: seq<string>, names: seq<string>, k: string)
    requires FirstAppearanceOrder(keys, names) && k !in names
    ensures FirstAppearanceOrder(keys + [k], names + [k])
  {
    var keys', names' := keys + [k], names + [k];
    IndexOfAppend(names, k, k);
    forall i | 0 <= i < |keys|
      ensures IndexOf(names', keys[i]) == IndexOf(names, keys[i]) < |names|
    {
      IndexOfAppend(names, k, keys[i]);
    }
    forall i, j | 0 <= i < j < |keys'|
      ensures keys'[i] != keys'[j]
      ensures IndexOf(names', keys'[i]) < IndexOf(names', keys'[j])
    {
      assert keys'[i] == keys[i];
      if j < |keys| {
        assert keys'[j] == keys[j];
      }
    }
    forall i | 0 <= i < |names'|
      ensures names'[i] in keys'
    {
      if i < |names| {
        assert names'[i] == names[i];
      }
    }
  }

  /** Adding a name extends the first-appearance order when the name is new
      and leaves it as it is otherwise. */
  lemma FirstAppearanceOrderStep(keys: seq<string>, names: seq<string>, k: string)
    requires FirstAppearanceOrder(keys, names)
    ensures FirstAppearanceOrder(if k in names then keys else keys + [k], names + [k])
  {
    if k in names {
      FirstAppearanceOrderSeen(keys, names, k);
    } else {
      FirstAppearanceOrderNew(keys, names, k);
    }
  }

  /** The decoded keys are the distinct input keys, in order of first appearance. */
  lemma {:induction false} DecodeKeys(pairs: U.Pairs)
    ensures FirstAppearanceOrder(Keys(GetUrlSearchParams(pairs).params), Keys(pairs))
  {
    if |pairs| > 0 {
      var prefix := pairs[..|pairs| - 1];
      var last := pairs[|pairs| - 1];
      var d := GetUrlSearchParams(prefix);
      DecodeLast(pairs);
      KeysLast(pairs);
      DecodeKeys(prefix);
      AddPairKeys(d, last.0, last.1);
      FirstAppearanceOrderStep(Keys(d.params), Keys(prefix), last.0);
    }
  }

  /** Decoding yields a well-formed map. */
  lemma DecodeWellFormed(pairs: U.Pairs)
    ensures WellFormed(GetUrlSearchParams(pairs).params)
  {
    var params := GetUrlSearchParams(pairs).params;
    DecodeKeys(pairs);
    assert Valid(params) by {
      forall i, j | 0 <= i < j < |params|
        ensures params[i].0 != params[j].0
      {
        assert Keys(params)[i] == params[i].0 && Keys(params)[j] == params[j].0;
      }
    }
    forall i | 0 <= i < |params|
      ensures IsArrayKey(params[i].0) <==> params[i].1.Many?
    {
      DecodeValue(pairs, params[i].0);
    }
  }

  /** How one step changes the warnings. */
  lemma AddPairWarnings(d: Decoded, k: string, v: string)
    ensures AddPair(d, k, v).warnings ==
      if Has(d.params, k) && !IsArrayKey(k) then d.warnings + [k] else d.warnings
  {
  }

  /** A repeated key that does not end in `[]` warns once for every occurrence
      after its first; array keys never warn. */
  lemma {:induction false} DecodeWarnings(pairs: U.Pairs, k: string)
    ensures Count(GetUrlSearchParams(pairs).warnings, k) ==
      var n := |U.GetAll(pairs, k)|;
      if IsArrayKey(k) || n == 0 then 0 else n - 1
  {
    if |pairs| > 0 {
      var prefix := pairs[..|pairs| - 1];
      var last := pairs[|pairs| - 1];
      var d := GetUrlSearchParams(prefix);
      DecodeLast(pairs);
      U.GetAllLast(pairs, k);
      DecodeWarnings(prefix, k);
      DecodeValue(prefix, last.0);
      AddPairWarnings(d, last.0, last.1);
      CountAppend(d.warnings, [last.0], k);
    }
  }

  /** `_s[0].toUpperCase() + _s.slice(1)` on a non-empty segment. */
  function Capitalize(seg: string): string {
    if |seg| == 0 then "" else [ToUpperAscii(seg[0])] + seg[1..]
  }

  /** The `map` over the segments; `None` when a segment is empty, where
      `_s[0]` is `undefined` and `toUpperCase` throws. */
  function CapitalizeAll(segs: seq<string>): Option<seq<string>> {
    if |segs| == 0 then Some([])
    else if |segs[0]| == 0 then None
    else match CapitalizeAll(segs[1..])
      case None => None
      case Some(rest) => Some([Capitalize(segs[0])] + rest)
  }

  /** `snakeToTitleCase(s)`; `None` when it throws. */
  function SnakeToTitleCase(s: string): Option<string> {
    match CapitalizeAll(Split(s, '_'))
    case None => None
    case Some(words) => Some(Join(words, ' '))
  }

  /** The character-level reading of title-casing: `_` becomes a space, and a
      character that starts a segment is upper-cased (`atStart` says whether
      the first character starts one). */
  function TitleChars(s: string, atStart: bool): (r: string)
    ensures |r| == |s|
  {
    if |s| == 0 then ""
    else if s[0] == '_' then " " + TitleChars(s[1..], true)
    else [if atStart then ToUpperAscii(s[0]) else s[0]] + TitleChars(s[1..], false)
  }

  /** Whether the character at `i` starts a `_`-separated segment. */
  predicate StartsSegment(s: string, i: int, atStart: bool)
    requires 0 <= i < |s|
  {
    (i == 0 && atStart) || (i > 0 && s[i - 1] == '_')
  }

  /** Each character of the title is the space for a `_`, the upper-cased
      character at a segment start, and the character itself otherwise. */
  lemma {:induction false} TitleCharsAt(s: string, atStart: bool, i: int)
    requires 0 <= i < |s|
    ensures TitleChars(s, atStart)[i] ==
      if s[i] == '_' then ' '
      else if StartsSegment(s, i, atStart) then ToUpperAscii(s[i])
      else s[i]
  {
    if i > 0 {
      TitleCharsAt(s[1..], s[0] == '_', i - 1);
    }
  }

  /** The segments joined after capitalizing all but possibly the first. */
  function JoinCapitalized(segs: seq<string>, capFirst: bool): string
    requires |segs| >= 1
  {
    Join([if capFirst then Capitalize(segs[0]) else segs[0]] + MapCapitalize(segs[1..]), ' ')
  }

  function MapCapitalize(segs: seq<string>): (r: seq<string>)
    ensures |r| == |segs|
  {
    if |segs| == 0 then [] else [Capitalize(segs[0])] + MapCapitalize(segs[1..])
  }

  /** The step of `JoinCapitalizedSplit` for a leading `_`. */
  lemma JoinCapitalizedSplitSep(s: string, capFirst: bool)
    requires |s| > 0 && s[0] == '_'
    requires JoinCapitalized(Split(s[1..], '_'), true) == TitleChars(s[1..], true)
    ensures JoinCapitalized(Split(s, '_'), capFirst) == TitleChars(s, capFirst)
  {
    var rest := Split(s[1..], '_');
    var tail := MapCapitalize(rest[1..]);
    var segs := [""] + rest;
    assert Split(s, '_') == segs;
    assert segs[1..] == rest;
    assert MapCapitalize(rest) == [Capitalize(rest[0])] + tail;
  }

  /** Joining a list splits off its first piece. */
  lemma JoinCons(h: string, tail: seq<string>, sep: char)
    ensures Join([h] + tail, sep) == h + (if |tail| == 0 then "" else [sep] + Join(tail, sep))
  {
    assert ([h] + tail)[1..] == tail;
    if |tail| > 0 {
      assert h + [sep] + Join(tail, sep) == h + ([sep] + Join(tail, sep));
    }
  }

  /** The joined title of a split whose first segment is `head` followed by
      the rest's later segments. */
  lemma JoinCapitalizedCons(s: string, capFirst: bool)
    requires |s| > 0 && s[0] != '_'
    ensures var rest := Split(s[1..], '_');
      var t: string := if |rest| == 1 then "" else [' '] + Join(MapCapitalize(rest[1..]), ' ');
      && JoinCapitalized(Split(s, '_'), capFirst)
           == [if capFirst then ToUpperAscii(s[0]) else s[0]] + rest[0] + t
      && JoinCapitalized(rest, false) == rest[0] + t
  {
    var rest := Split(s[1..], '_');
    var tail := MapCapitalize(rest[1..]);
    var first := [s[0]] + rest[0];
    var head := if capFirst then Capitalize(first) else first;
    assert Split(s, '_') == [first] + rest[1..];
    assert ([first] + rest[1..])[1..] == rest[1..];
    JoinCons(head, tail, ' ');
    JoinCons(rest[0], tail, ' ');
  }

  /** The step of `JoinCapitalizedSplit` for a leading character other than `_`. */
  lemma JoinCapitalizedSplitChar(s: string, capFirst: bool)
    requires |s| > 0 && s[0] != '_'
    requires JoinCapitalized(Split(s[1..], '_'), false) == TitleChars(s[1..], false)
    ensures JoinCapitalized(Split(s, '_'), capFirst) == TitleChars(s, capFirst)
  {
    JoinCapitalizedCons(s, capFirst);
    var rest := Split(s[1..], '_');
    var t: string := if |rest| == 1 then "" else [' '] + Join(MapCapitalize(rest[1..]), ' ');
    var c := if capFirst then ToUpperAscii(s[0]) else s[0];
    assert TitleChars(s, capFirst) == [c] + TitleChars(s[1..], false);
    assert [c] + (rest[0] + t) == [c] + rest[0] + t;
  }

  lemma {:induction false} JoinCapitalizedSplit(s: string, capFirst: bool)
    ensures JoinCapitalized(Split(s, '_'), capFirst) == TitleChars(s, capFirst)
  {
    if |s| > 0 {
      JoinCapitalizedSplit(s[1..], s[0] == '_');
      if s[0] == '_' {
        JoinCapitalizedSplitSep(s, capFirst);
      } else {
        JoinCapitalizedSplitChar(s, capFirst);
      }
    }
  }

  lemma {:induction false} CapitalizeAllSome(segs: seq<string>)
    requires forall i :: 0 <= i < |segs| ==> |segs[i]| > 0
    ensures CapitalizeAll(segs) == Some(MapCapitalize(segs))
  {
    if |segs| > 0 {
      CapitalizeAllSome(segs[1..]);
    }
  }

  lemma {:induction false} CapitalizeAllNone(segs: seq<string>)
    requires exists i :: 0 <= i < |segs| && |segs[i]| == 0
    ensures CapitalizeAll(segs) == None
  {
    if |segs[0]| > 0 {
      var i :| 0 <= i < |segs| && |segs[i]| == 0;
      assert |segs[1..][i - 1]| == 0;
      CapitalizeAllNone(segs[1..]);
    }
  }

  /** Some `_` ends the string or is followed by another `_`. */
  predicate HasEmptyInnerSegment(s: string) {
    exists p :: 0 <= p < |s| && s[p] == '_' && (p == |s| - 1 || s[p + 1] == '_')
  }

  /** `snakeToTitleCase` throws exactly when a segment is empty: on the empty
      string, a leading or trailing `_`, or two `_` in a row. */
  predicate HasEmptySegment(s: string) {
    |s| == 0 || s[0] == '_' || HasEmptyInnerSegment(s)
  }

  lemma {:induction false} FirstSegmentEmpty(s: string)
    ensures Split(s, '_')[0] == "" <==> |s| == 0 || s[0] == '_'
  {
  }

  /** Some segment after the first is empty. */
  predicate LaterEmpty(segs: seq<string>) {
    exists i :: 1 <= i < |segs| && segs[i] == ""
  }

  lemma InnerCons(s: string)
    requires |s| > 0
    ensures HasEmptyInnerSegment(s) <==>
      (s[0] == '_' && (|s| == 1 || s[1] == '_')) || HasEmptyInnerSegment(s[1..])
  {
    var u := s[1..];
    if HasEmptyInnerSegment(s) {
      var p :| 0 <= p < |s| && s[p] == '_' && (p == |s| - 1 || s[p + 1] == '_');
      if p > 0 {
        assert u[p - 1] == '_' && (p - 1 == |u| - 1 || u[p] == '_');
      }
    }
    if HasEmptyInnerSegment(u) {
      var p :| 0 <= p < |u| && u[p] == '_' && (p == |u| - 1 || u[p + 1] == '_');
      assert s[p + 1] == '_' && (p + 1 == |s| - 1 || s[p + 2] == '_');
    }
  }

  lemma LaterEmptySeparator(rest: seq<string>)
    requires |rest| >= 1
    ensures LaterEmpty([""] + rest) <==> rest[0] == "" || LaterEmpty(rest)
  {
    var segs := [""] + rest;
    if LaterEmpty(segs) {
      var i :| 1 <= i < |segs| && segs[i] == "";
      assert rest[i - 1] == "";
    }
    if LaterEmpty(rest) {
      var i :| 1 <= i < |rest| && rest[i] == "";
      assert segs[i + 1] == "";
    }
    if rest[0] == "" {
      assert segs[1] == "";
    }
  }

  lemma LaterEmptyGlued(first: string, rest: seq<string>)
    requires |rest| >= 1
    ensures LaterEmpty([first] + rest[1..]) <==> LaterEmpty(rest)
  {
    var segs := [first] + rest[1..];
    if LaterEmpty(segs) {
      var i :| 1 <= i < |segs| && segs[i] == "";
      assert rest[i] == "";
    }
    if LaterEmpty(rest) {
      var i :| 1 <= i < |rest| && rest[i] == "";
      assert segs[i] == "";
    }
  }

  /** A segment after the first is empty exactly when some `_` ends the string
      or is followed by another `_`. */
  lemma {:induction false} LaterSegmentEmpty(s: string)
    ensures LaterEmpty(Split(s, '_')) <==> HasEmptyInnerSegment(s)
  {
    if |s| > 0 {
      var u := s[1..];
      var rest := Split(u, '_');
      LaterSegmentEmpty(u);
      FirstSegmentEmpty(u);
      InnerCons(s);
      if s[0] == '_' {
        assert Split(s, '_') == [""] + rest;
        LaterEmptySeparator(rest);
      } else {
        assert Split(s, '_') == [[s[0]] + rest[0]] + rest[1..];
        LaterEmptyGlued([s[0]] + rest[0], rest);
      }
    }
  }

  /** `snakeToTitleCase` throws exactly on an empty segment; otherwise it
      turns each `_` into a space, upper-cases every segment's first
      character, keeps the length and leaves no `_`. */
  lemma SnakeToTitleCaseSpec(s: string)
    ensures SnakeToTitleCase(s).None? <==> HasEmptySegment(s)
    ensures SnakeToTitleCase(s).Some? ==>
      var r := SnakeToTitleCase(s).value;
      && |r| == |s|
      && '_' !in r
      && forall i :: 0 <= i < |s| ==>
           r[i] == if s[i] == '_' then ' '
                   else if StartsSegment(s, i, true) then ToUpperAscii(s[i])
                   else s[i]
  {
    var segs := Split(s, '_');
    FirstSegmentEmpty(s);
    LaterSegmentEmpty(s);
    assert (exists i :: 0 <= i < |segs| && |segs[i]| == 0) <==> segs[0] == "" || LaterEmpty(segs);
    if exists i :: 0 <= i < |segs| && |segs[i]| == 0 {
      CapitalizeAllNone(segs);
    } else {
      CapitalizeAllSome(segs);
      JoinCapitalizedSplit(s, true);
      assert MapCapitalize(segs) == [Capitalize(segs[0])] + MapCapitalize(segs[1..]);
      var r := SnakeToTitleCase(s).value;
      assert r == TitleChars(s, true);
      forall i | 0 <= i < |s|
        ensures r[i] == if s[i] == '_' then ' '
                        else if StartsSegment(s, i, true) then ToUpperAscii(s[i])
                        else s[i]
      {
        TitleCharsAt(s, true, i);
      }
      assert '_' !in r by {
        forall i | 0 <= i < |r|
          ensures r[i] != '_'
        {
          TitleCharsAt(s, true, i);
        }
      }
    }
  }

  /** An element's attributes. */
  type Attributes = map<string, string>

  /** `getAttribute(el, attr, defaultValue)`: the attribute when present,
      else the default when one is given, else an error. */
  function GetAttribute(el: Attributes, attr: string, default: Option<string>): (r: Result<string, string>)
    ensures r.Success? <==> attr in el || default.Some?
    ensures attr in el ==> r.value == el[attr]
    ensures attr !in el && default.Some? ==> r.value == default.value
  {
    if attr in el then Success(el[attr])
    else if default.Some? then Success(default.value)
    else Failure("Element (previous console warning) has no attribute: \"" + attr + "\"")
  }
}
