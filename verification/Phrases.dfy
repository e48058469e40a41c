/** Phrases put together from their words. */
module Phrases {
  import opened Text

  lemma Joins(first: string, second: string, whole: string)
    requires first + second == whole
    ensures Ascii(first) + Ascii(second) == Ascii(whole)
  {
    AsciiAppend(first, second);
  }

  lemma WrapperWords1()
    ensures "Error " + "verifying sigstore " == "Error verifying sigstore "
  {
  }

  lemma WrapperWords2()
    ensures "Error verifying sigstore " + "provenance bundle:" == "Error verifying sigstore provenance bundle:"
  {
  }

  lemma Wrapper()
    ensures Ascii("Error ") + Ascii("verifying sigstore ") + Ascii("provenance bundle:") ==
            Ascii("Error verifying sigstore provenance bundle:")
  {
    hide Ascii;
    WrapperWords1();
    Joins("Error ", "verifying sigstore ", "Error verifying sigstore ");
    WrapperWords2();
    Joins("Error verifying sigstore ", "provenance bundle:", "Error verifying sigstore provenance bundle:");
  }

  lemma HeaderWords1()
    ensures "Invalid " + "GitHub Actions SLSA v1 " == "Invalid GitHub Actions SLSA v1 "
  {
  }

  lemma HeaderWords2()
    ensures "Invalid GitHub Actions SLSA v1 " + "provenance predicate:" ==
            "Invalid GitHub Actions SLSA v1 provenance predicate:"
  {
  }

  lemma Header()
    ensures Ascii("Invalid ") + Ascii("GitHub Actions SLSA v1 ") + Ascii("provenance predicate:") ==
            Ascii("Invalid GitHub Actions SLSA v1 provenance predicate:")
  {
    hide Ascii;
    HeaderWords1();
    Joins("Invalid ", "GitHub Actions SLSA v1 ", "Invalid GitHub Actions SLSA v1 ");
    HeaderWords2();
    Joins("Invalid GitHub Actions SLSA v1 ", "provenance predicate:",
          "Invalid GitHub Actions SLSA v1 provenance predicate:");
  }

  lemma ClaimWords1()
    ensures "Missing " + "SourceRepositoryRef " == "Missing SourceRepositoryRef "
  {
  }

  lemma ClaimWords2()
    ensures "Missing SourceRepositoryRef " + "in signing certificate" ==
            "Missing SourceRepositoryRef in signing certificate"
  {
  }

  lemma Claim()
    ensures Ascii("Missing ") + Ascii("SourceRepositoryRef ") + Ascii("in signing certificate") ==
            Ascii("Missing SourceRepositoryRef in signing certificate")
  {
    hide Ascii;
    ClaimWords1();
    Joins("Missing ", "SourceRepositoryRef ", "Missing SourceRepositoryRef ");
    ClaimWords2();
    Joins("Missing SourceRepositoryRef ", "in signing certificate",
          "Missing SourceRepositoryRef in signing certificate");
  }

  lemma RouteWords1()
    ensures "Unprocessable " + "Entity - PUT " == "Unprocessable Entity - PUT "
  {
  }

  lemma RouteWords2()
    ensures "Unprocessable Entity - PUT " + "https://registry.npmjs.org/" ==
            "Unprocessable Entity - PUT https://registry.npmjs.org/"
  {
  }

  lemma Route()
    ensures Ascii("Unprocessable ") + Ascii("Entity - PUT ") + Ascii("https://registry.npmjs.org/") ==
            Ascii("Unprocessable Entity - PUT https://registry.npmjs.org/")
  {
    hide Ascii;
    RouteWords1();
    Joins("Unprocessable ", "Entity - PUT ", "Unprocessable Entity - PUT ");
    RouteWords2();
    Joins("Unprocessable Entity - PUT ", "https://registry.npmjs.org/",
          "Unprocessable Entity - PUT https://registry.npmjs.org/");
  }

  lemma RunnerWords1()
    ensures "Unsupported " + "GitHub Actions " == "Unsupported GitHub Actions "
  {
  }

  lemma RunnerWords2()
    ensures "Unsupported GitHub Actions " + "runner " == "Unsupported GitHub Actions runner "
  {
  }

  lemma RunnerWords3()
    ensures "Unsupported GitHub Actions runner " + "environment: \"self-hosted\"." ==
            "Unsupported GitHub Actions runner environment: \"self-hosted\"."
  {
  }

  lemma Runner()
    ensures Ascii("Unsupported ") + Ascii("GitHub Actions ") + Ascii("runner ") +
            Ascii("environment: \"self-hosted\".") ==
            Ascii("Unsupported GitHub Actions runner environment: \"self-hosted\".")
  {
    hide Ascii;
    RunnerWords1();
    Joins("Unsupported ", "GitHub Actions ", "Unsupported GitHub Actions ");
    RunnerWords2();
    Joins("Unsupported GitHub Actions ", "runner ", "Unsupported GitHub Actions runner ");
    RunnerWords3();
    Joins("Unsupported GitHub Actions runner ", "environment: \"self-hosted\".",
          "Unsupported GitHub Actions runner environment: \"self-hosted\".");
  }

  lemma ConclusionWords()
    ensures "Only " + "\"github-hosted\" runners are " == "Only \"github-hosted\" runners are "
  {
  }

  lemma Conclusion()
    ensures Ascii("Only ") + Ascii("\"github-hosted\" runners are ") == Ascii("Only \"github-hosted\" runners are ")
  {
    hide Ascii;
    ConclusionWords();
    Joins("Only ", "\"github-hosted\" runners are ", "Only \"github-hosted\" runners are ");
  }

  lemma SourceWords1()
    ensures "Unsupported " + "GitHub Actions " == "Unsupported GitHub Actions "
  {
  }

  lemma SourceWords2()
    ensures "Unsupported GitHub Actions " + "source " == "Unsupported GitHub Actions source "
  {
  }

  lemma SourceWords3()
    ensures "Unsupported GitHub Actions source " + "repository " == "Unsupported GitHub Actions source repository "
  {
  }

  lemma SourceWords4()
    ensures "Unsupported GitHub Actions source repository " + "visibility: \"private\". " ==
            "Unsupported GitHub Actions source repository visibility: \"private\". "
  {
  }

  lemma Source()
    ensures Ascii("Unsupported ") + Ascii("GitHub Actions ") + Ascii("source ") + Ascii("repository ") +
            Ascii("visibility: \"private\". ") ==
            Ascii("Unsupported GitHub Actions source repository visibility: \"private\". ")
  {
    hide Ascii;
    SourceWords1();
    Joins("Unsupported ", "GitHub Actions ", "Unsupported GitHub Actions ");
    SourceWords2();
    Joins("Unsupported GitHub Actions ", "source ", "Unsupported GitHub Actions source ");
    SourceWords3();
    Joins("Unsupported GitHub Actions source ", "repository ", "Unsupported GitHub Actions source repository ");
    SourceWords4();
    Joins("Unsupported GitHub Actions source repository ", "visibility: \"private\". ",
          "Unsupported GitHub Actions source repository visibility: \"private\". ");
  }

  lemma RepositoryWords()
    ensures "Failed " + "to validate repository information: " == "Failed to validate repository information: "
  {
  }

  lemma Repository()
    ensures Ascii("Failed ") + Ascii("to validate repository information: ") ==
            Ascii("Failed to validate repository information: ")
  {
    hide Ascii;
    RepositoryWords();
    Joins("Failed ", "to validate repository information: ", "Failed to validate repository information: ");
  }
}
