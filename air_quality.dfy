/** The air-quality label attached to each publish, derived from the VOC
    index by a chain of overwriting threshold tests. */
module AirQuality {

  const EXCELLENT := "Excellent (<80)"
  const GOOD := "Good (80-149)"
  const MEH := "Meh. (150 - 249)"
  const YUCK := "Yuck! (250 - 400)"

  /** The label as a partition of the index range: one band per label and
      no label at all from 400 upwards. */
  function Classify(voc: int): (quality: string)
    ensures quality == EXCELLENT <==> voc < 80
    ensures quality == GOOD <==> 80 <= voc < 150
    ensures quality == MEH <==> 150 <= voc < 250
    ensures quality == YUCK <==> 250 <= voc < 400
    ensures quality == "" <==> voc >= 400
  {
    if voc < 80 then EXCELLENT
    else if voc < 150 then GOOD
    else if voc < 250 then MEH
    else if voc < 400 then YUCK
    else ""
  }

  /** The program's own computation: start from the empty label and let
      every threshold the index is below overwrite it, least severe first,
      so that the last (lowest) matching threshold wins. */
  method ChainLabel(voc: int) returns (quality: string)
    ensures quality == Classify(voc)
  {
    quality := "";
    if voc < 400 {
      quality := YUCK;
    }
    if voc < 250 {
      quality := MEH;
    }
    if voc < 150 {
      quality := GOOD;
    }
    if voc < 80 {
      quality := EXCELLENT;
    }
  }

  /** Severity rank of a label: 0 for Excellent up to 3 for Yuck, 4 for the
      empty label given to indices of 400 and above. */
  function Rank(quality: string): nat
  {
    if quality == EXCELLENT then 0
    else if quality == GOOD then 1
    else if quality == MEH then 2
    else if quality == YUCK then 3
    else 4
  }

  /** A higher index never gets a milder label. */
  lemma ClassifyMonotone(voc1: int, voc2: int)
    requires voc1 <= voc2
    ensures Rank(Classify(voc1)) <= Rank(Classify(voc2))
  {
  }

  /** The boundary indices 79, 80, 149, 150, 249, 250, 399 and 400. */
  lemma ClassifyBoundaries()
    ensures Classify(79) == EXCELLENT && Classify(80) == GOOD
    ensures Classify(149) == GOOD && Classify(150) == MEH
    ensures Classify(249) == MEH && Classify(250) == YUCK
    ensures Classify(399) == YUCK && Classify(400) == ""
  {
  }
}
