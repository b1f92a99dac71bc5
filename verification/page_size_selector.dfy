/** The page-size drop-down (`_search_app/src/components/PageSizeSelector.js`):
    its options and which one is selected. */
module PageSizeSelector {
  import opened Sequences
  import opened Strings

  /** One `<option>`: its value and whether it is selected. */
  datatype SizeOption = SizeOption(value: string, selected: bool)

  /** The option values: the comma-separated `options` attribute, with the
      initial value appended when it is not among them. */
  function OptionValues(optionsAttr: string, initialValue: string): seq<string> {
    var options := Split(optionsAttr, ',');
    if initialValue in options then options else options + [initialValue]
  }

  /** The option elements, the one equal to the initial value marked selected. */
  function Options(optionsAttr: string, initialValue: string): (r: seq<SizeOption>)
    ensures |r| == |OptionValues(optionsAttr, initialValue)|
    ensures forall i :: 0 <= i < |r| ==>
      r[i].value == OptionValues(optionsAttr, initialValue)[i]
      && (r[i].selected <==> r[i].value == initialValue)
  {
    var values := OptionValues(optionsAttr, initialValue);
    seq(|values|, i requires 0 <= i < |values| => SizeOption(values[i], values[i] == initialValue))
  }

  /** The listed options stay first and in order; the initial value is
      always an option, added at the end only when missing; so at most one
      option is added. */
  lemma OptionValuesSpec(optionsAttr: string, initialValue: string)
    ensures var options := Split(optionsAttr, ',');
      var r := OptionValues(optionsAttr, initialValue);
      && r[..|options|] == options
      && initialValue in r
      && (|r| == |options| <==> initialValue in options)
      && (|r| == |options| + 1 <==> initialValue !in options)
  {
  }

  /** The number of selected options is the number of times the initial
      value is listed, or one when it was added; with distinct listed
      options exactly one option is selected. */
  lemma SelectedCount(optionsAttr: string, initialValue: string)
    ensures var options := Split(optionsAttr, ',');
      Count(OptionValues(optionsAttr, initialValue), initialValue)
        == if initialValue in options then Count(options, initialValue) else 1
    ensures Distinct(Split(optionsAttr, ',')) ==>
      Count(OptionValues(optionsAttr, initialValue), initialValue) == 1
  {
    var options := Split(optionsAttr, ',');
    CountZero(options, initialValue);
    if initialValue !in options {
      CountAppend(options, [initialValue], initialValue);
      assert Count([initialValue], initialValue) == 1 + Count([initialValue][1..], initialValue);
    } else if Distinct(options) {
      DistinctCountOne(options, initialValue);
    }
  }

  /** A value occurs once in a list without repeats that contains it. */
  lemma {:induction false} DistinctCountOne<T>(s: seq<T>, x: T)
    requires Distinct(s) && x in s
    ensures Count(s, x) == 1
  {
    if s[0] == x {
      CountZero(s[1..], x);
    } else {
      DistinctCountOne(s[1..], x);
    }
  }

  /** The sizes the results header offers. */
  const StandardOptions := "10,25,50,100"

  /** With the header's options, the list is 10, 25, 50 and 100, followed by
      the current size when it is none of them. */
  lemma StandardOptionValues(initialValue: string)
    ensures OptionValues(StandardOptions, initialValue)
      == ["10", "25", "50", "100"] + (if initialValue in ["10", "25", "50", "100"] then [] else [initialValue])
  {
    var listed := ["10", "25", "50", "100"];
    assert Join(listed[3..], ',') == "100";
    assert Join(listed[2..], ',') == "50,100";
    assert Join(listed[1..], ',') == "25,50,100";
    assert Join(listed, ',') == StandardOptions;
    SplitJoin(listed, ',');
  }
}
