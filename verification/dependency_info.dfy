/** The coordinates of a declared dependency, as the ordering rules see them. */
module DependencyInfos {

  datatype DependencyInfo = DependencyInfo(
    groupId: string,
    artifactId: string,
    version: string,
    scope: string,
    classifier: string)
}
