/** The `d{depth}_t{field}` keys under which the tag-hunting tools store a
    varint: the nesting level of the buffer that holds it and its field
    number. */
module TagKey {
  import Text

  datatype Key = Key(depth: nat, field: nat)

  /** `f"d{depth}_t{field}"` */
  function Label(k: Key): string {
    "d" + Text.NatToString(k.depth) + "_t" + Text.NatToString(k.field)
  }

  /** Distinct keys have distinct labels, so a dictionary keyed by the label
      is a dictionary keyed by the depth and field. */
  lemma LabelInjective(a: Key, b: Key)
    requires Label(a) == Label(b)
    ensures a == b
  {
    var da, fa := Text.NatToString(a.depth), Text.NatToString(a.field);
    var db, fb := Text.NatToString(b.depth), Text.NatToString(b.field);
    assert |da| == |db| by {
      DepthLength(a);
      DepthLength(b);
    }
    assert da == db && fa == fb by {
      LabelSlices(a);
      LabelSlices(b);
    }
    Text.NatToStringInjective(a.depth, b.depth);
    Text.NatToStringInjective(a.field, b.field);
  }

  /** The depth digits are what precedes the first `_` after the `d`. */
  lemma DepthLength(k: Key)
    ensures Text.IndexOf(Label(k)[1..], '_') == |Text.NatToString(k.depth)|
  {
    var d, f := Text.NatToString(k.depth), Text.NatToString(k.field);
    assert '_' !in d by {
      forall j | 0 <= j < |d| ensures d[j] != '_' {
        assert Text.IsDigit(d[j]);
      }
    }
    assert Label(k)[1..] == d + "_" + ("t" + f);
    Text.IndexOfAfter(d, '_', "t" + f);
  }

  /** Where the two numbers sit in a label. */
  lemma LabelSlices(k: Key)
    ensures var d, f := Text.NatToString(k.depth), Text.NatToString(k.field);
      3 + |d| <= |Label(k)| && Label(k)[1..1 + |d|] == d && Label(k)[3 + |d|..] == f
  {
  }
}
