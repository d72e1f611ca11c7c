/**
 * The name of the built crate: the package name with every '-' replaced by
 * '_', which is how Cargo names the library it compiles.
 */
module ProjectName {

  /** `built_project_name`: one character out for each character in. */
  function BuiltProjectName(projectName: string): (r: string)
    ensures |r| == |projectName|
    ensures forall i | 0 <= i < |projectName| ::
      r[i] == (if projectName[i] == '-' then '_' else projectName[i])
  {
    if |projectName| == 0 then []
    else [if projectName[0] == '-' then '_' else projectName[0]] + BuiltProjectName(projectName[1..])
  }

  /** No hyphen survives. */
  lemma BuiltProjectNameHasNoHyphen(projectName: string)
    ensures '-' !in BuiltProjectName(projectName)
  {
  }

  /** Replacing again changes nothing. */
  lemma BuiltProjectNameIsIdempotent(projectName: string)
    ensures BuiltProjectName(BuiltProjectName(projectName)) == BuiltProjectName(projectName)
  {
  }

  /** Names without a hyphen are left as they are. */
  lemma BuiltProjectNameKeepsUnhyphenated(projectName: string)
    requires '-' !in projectName
    ensures BuiltProjectName(projectName) == projectName
  {
  }
}
