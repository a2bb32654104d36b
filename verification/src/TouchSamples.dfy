/** Touch screen samples, and the shape of a stream of them. */
module TouchSamples {

  // struct ts_sample; the time is opaque to the filters
  datatype Sample = Sample(x: int, y: int, pressure: nat, tv: int)

  predicate IsPress(s: Sample) { s.pressure != 0 }

  // no release without a press right before it
  predicate Shaped(down: bool, s: seq<Sample>)
    decreases |s|
  {
    s == [] || ((IsPress(s[0]) || down) && Shaped(IsPress(s[0]), s[1..]))
  }

  // sample i is a press, or right after one, or the first while the pen was down before
  predicate AfterPress(down: bool, s: seq<Sample>, i: nat)
    requires i < |s|
  {
    IsPress(s[i]) || if i == 0 then down else IsPress(s[i - 1])
  }

  /** That is: no two releases are adjacent, and the first sample of all is none. */
  lemma {:induction false} ShapedIff(down: bool, s: seq<Sample>)
    ensures Shaped(down, s) <==> forall i :: 0 <= i < |s| ==> AfterPress(down, s, i)
    decreases |s|
  {
    if s != [] {
      var t := s[1..];
      ShapedIff(IsPress(s[0]), t);
      assert AfterPress(down, s, 0) <==> IsPress(s[0]) || down;
      assert forall i :: 0 <= i < |t| ==> (AfterPress(IsPress(s[0]), t, i) <==> AfterPress(down, s, i + 1));
      if Shaped(down, s) {
        forall i | 0 <= i < |s| ensures AfterPress(down, s, i) {
          if i > 0 { assert AfterPress(IsPress(s[0]), t, i - 1); }
        }
      }
    }
  }

  // the times of the releases in a stream
  function Releases(s: seq<Sample>): seq<int> {
    if s == [] then [] else (if IsPress(s[0]) then [] else [s[0].tv]) + Releases(s[1..])
  }

  // times do not go back, from t on
  predicate Since(t: int, s: seq<Sample>)
    decreases |s|
  {
    s == [] || (t <= s[0].tv && Since(s[0].tv, s[1..]))
  }
}
