/** `regexuploader/regexuploader.go`: reads a file of patterns, one per line, and stores
    each as an extraction rule whose class is its 0-based line number, under a URL ending in
    the same number. A pattern that does not compile ends the run (`log.Fatal`). Reading
    the file and the HTTP put are left out; the run is the list of puts it issues. */
module RegexUploader {
  import Regex
  import opened Decimal

  /** The store path every rule is put under, followed by its class. */
  const ExtractUrl := "http://10.90.1.171:8081/splunk/conf/props/cisco:asa/extract/"

  /** The stored item, `{"class": {"S": ...}, "regex": {"S": ...}}`. */
  datatype Item = Item(className: string, regex: string)

  /** One PutItem request. */
  datatype Put = Put(url: string, item: Item)

  /** The request issued for line number `i` holding `line`. */
  function PutFor(i: nat, line: string): Put {
    Put(ExtractUrl + Itoa(i), Item(Itoa(i), line))
  }

  /** `main`'s scanner loop: one put per line, in order, until the first line that does not
      compile; `aborted` tells whether the run ended on such a line. */
  method Upload(e: Regex.Engine, lines: seq<string>) returns (puts: seq<Put>, aborted: bool)
    ensures aborted <==> exists i :: 0 <= i < |lines| && !e.compiles(lines[i])
    ensures aborted ==> |puts| < |lines| && !e.compiles(lines[|puts|])
    ensures !aborted ==> |puts| == |lines|
    ensures forall i :: 0 <= i < |puts| ==> e.compiles(lines[i])
    ensures forall i :: 0 <= i < |puts| ==> puts[i] == PutFor(i, lines[i])
  {
    puts := [];
    var i := 0;
    while i < |lines|
      invariant 0 <= i <= |lines|
      invariant |puts| == i
      invariant forall j :: 0 <= j < i ==> e.compiles(lines[j])
      invariant forall j :: 0 <= j < i ==> puts[j] == PutFor(j, lines[j])
    {
      var line := lines[i];
      if !e.compiles(line) {
        return puts, true;
      }
      var className := Itoa(i);
      var item := Item(className, line);
      puts := puts + [Put(ExtractUrl + Itoa(i), item)];
      i := i + 1;
    }
    return puts, false;
  }

  /** The URL of a put ends in its class, and different lines get different classes and
      different URLs. */
  lemma KeysDistinct(i: nat, j: nat, a: string, b: string)
    ensures PutFor(i, a).url == ExtractUrl + PutFor(i, a).item.className
    ensures i != j ==> PutFor(i, a).item.className != PutFor(j, b).item.className
    ensures i != j ==> PutFor(i, a).url != PutFor(j, b).url
  {
    if i != j {
      if Itoa(i) == Itoa(j) {
        ItoaInjective(i, j);
      }
      var u := PutFor(i, a).url;
      var v := PutFor(j, b).url;
      assert u[|ExtractUrl|..] == Itoa(i);
      assert v[|ExtractUrl|..] == Itoa(j);
    }
  }

  /** The class of a put reads back as its line number. */
  lemma ClassIsLineNumber(i: nat, line: string)
    ensures Atoi(PutFor(i, line).item.className) == i
  {
    AtoiItoa(i);
  }
}
