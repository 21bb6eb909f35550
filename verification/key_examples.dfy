/**
 * Worked examples: the test keys `city`, `country_code` and `zip_code`,
 * two-word snake_case keys in general, and the boundary split of `FooBar`.
 */
module KeyExamples {
  import opened Casing
  import opened Splitters
  import opened KeyTransforms

  lemma CapitalizeCode()
    ensures Capitalize("code") == "Code"
  {
    assert ToUpper('c') == 'C';
    assert LowerCase("ode") == "ode" by {
      CapitalizeLowerWord("ode");
    }
  }

  lemma CapitalizeZip()
    ensures Capitalize("zip") == "Zip"
  {
    assert ToUpper('z') == 'Z';
    assert LowerCase("ip") == "ip" by {
      CapitalizeLowerWord("ip");
    }
  }

  /** A key without `'_'`, such as `city`, is left alone. */
  lemma CityToCamel()
    ensures FromSnakeCaseToCamelCase("city") == "city"
  {
    assert forall j :: 0 <= j < |"city"| ==> "city"[j] != '_';
  }

  /** A two-word snake_case key in camelCase: the first word, then the second capitalized. */
  lemma CamelOfTwoWords(first: string, second: string)
    requires '_' !in first && '_' !in second
    ensures FromSnakeCaseToCamelCase(first + "_" + second) == first + Capitalize(second)
  {
    CamelOfSnakeWords(first, second);
  }

  /** A two-word snake_case key in PascalCase: both words capitalized. */
  lemma PascalOfTwoWords(first: string, second: string)
    requires '_' !in first && '_' !in second
    ensures FromSnakeCaseToPascalCase(first + "_" + second) == Capitalize(first) + Capitalize(second)
  {
    PascalOfSnakeWords(first, second);
  }

  /** `country_code` becomes `countryCode`. */
  lemma CountryCodeToCamel()
    ensures FromSnakeCaseToCamelCase("country_code") == "countryCode"
  {
    calc {
      FromSnakeCaseToCamelCase("country_code");
      { assert "country_code" == "country" + "_" + "code"; }
      FromSnakeCaseToCamelCase("country" + "_" + "code");
      { CamelOfTwoWords("country", "code"); }
      "country" + Capitalize("code");
      { CapitalizeCode(); }
      "countryCode";
    }
  }

  /** `zip_code` becomes `ZipCode`. */
  lemma ZipCodeToPascal()
    ensures FromSnakeCaseToPascalCase("zip_code") == "ZipCode"
  {
    calc {
      FromSnakeCaseToPascalCase("zip_code");
      { assert "zip_code" == "zip" + "_" + "code"; }
      FromSnakeCaseToPascalCase("zip" + "_" + "code");
      { PascalOfTwoWords("zip", "code"); }
      Capitalize("zip") + Capitalize("code");
      { CapitalizeZip(); CapitalizeCode(); }
      "ZipCode";
    }
  }

  /** The boundary split cuts `FooBar` into two words, with no empty word in front. */
  lemma FooBarBoundarySplit()
    ensures SplitBeforeUpper("FooBar") == ["Foo", "Bar"]
  {
    var parts := ["Foo", "Bar"];
    JoinPrependPart("Foo", ["Bar"], "");
    assert ["Foo"] + ["Bar"] == parts;
    assert "Foo" + "" + "Bar" == "FooBar";
    assert IsBoundaryParts(parts);
    SplitBeforeUpperOfJoin(parts);
  }
}
