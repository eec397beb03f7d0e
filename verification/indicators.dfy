/** The stack indicator table: which frameworks the scanner knows, the preset
    each one recommends, whether it is a user-interface framework, and the
    matchers that reveal it. */
module Indicators {
  import opened Search

  datatype Matcher =
    /** A file or directory at a root-relative path, or anywhere within the
        depth bound when the pattern starts with a deep-search prefix. */
    | FileMatcher(patterns: seq<string>)
    /** A manifest found through `filePatterns` that declares `dependency`. */
    | PackageDependency(dependency: string, filePatterns: seq<string>)
    /** A `composer.json` within the default depth that declares `dependency`. */
    | ComposerDependency(dependency: string)

  datatype Indicator = Indicator(id: string, displayName: string, preset: string, ui: bool, matchers: seq<Matcher>)

  const AngularIndicator: Indicator := Indicator("angular", "Angular", "angular", true,
    [FileMatcher(["angular.json", Deep("angular.json")])])

  const IonicIndicator: Indicator := Indicator("ionic", "Ionic", "ionic", true,
    [FileMatcher(["ionic.config.json", Deep("ionic.config.json")])])

  const NextIndicator: Indicator := Indicator("next", "Next.js", "next", true,
    [FileMatcher(["next.config.js", "next.config.ts", "next.config.mjs",
                  Deep("next.config.js"), Deep("next.config.ts"), Deep("next.config.mjs")])])

  const ReactIndicator: Indicator := Indicator("react", "React", "react", true,
    [PackageDependency("react", ["package.json", Deep("package.json")]),
     FileMatcher(["src/App.tsx", "src/App.jsx", Deep("src/App.tsx"), Deep("src/App.jsx")])])

  const LaravelIndicator: Indicator := Indicator("laravel", "Laravel", "laravel", false,
    [FileMatcher(["artisan", Deep("artisan")]),
     ComposerDependency("laravel/framework")])

  /** Container definitions recognised at the root. */
  const ComposeFiles: seq<string> := ["docker-compose.yml", "compose.yml", "compose.yaml", "Dockerfile"]

  const DockerIndicator: Indicator := Indicator("docker", "Solo contenedores", "docker", false,
    [FileMatcher(ComposeFiles + [Deep("docker-compose.yml"), Deep("Dockerfile")])])

  /** The table, in the order frameworks are reported. */
  const StackIndicators: seq<Indicator> :=
    [AngularIndicator, IonicIndicator, NextIndicator, ReactIndicator, LaravelIndicator, DockerIndicator]

  /** Identifiers are distinct, every indicator recommends the preset of its
      own name, and exactly the first four are user-interface frameworks. */
  lemma TableFacts()
    ensures forall i, j :: 0 <= i < j < |StackIndicators| ==> StackIndicators[i].id != StackIndicators[j].id
    ensures forall i :: 0 <= i < |StackIndicators| ==> StackIndicators[i].preset == StackIndicators[i].id
    ensures forall i :: 0 <= i < |StackIndicators| ==> (StackIndicators[i].ui <==> i < 4)
  {
  }
}
