/** How the projection of a symbol is classified.
 */
module Statuses {

  datatype Status =
    | Unclassified
    | GeneratedPureGo | GeneratedAssembly | GeneratedCgoBridge | GeneratedTypeOnly | GeneratedManualOverride
    | UnsupportedGoAbi | UnsupportedProjection | KernelModeOnly | MissingUpstreamMetadata | ExternalSdkNotInstalled
    | UndocumentedOutOfScope | LicenseRestricted | SourceParseError
    | OtherStatus(text: string)

  const GENERATED_PREFIX: string := "generated-"

  /** The status is one of those a classified symbol can have. */
  predicate IsValidStatus(s: Status) {
    !s.Unclassified? && !s.OtherStatus?
  }

  /** The five statuses under which source is generated. */
  predicate IsGenerated(s: Status) {
    s.GeneratedPureGo? || s.GeneratedAssembly? || s.GeneratedCgoBridge? || s.GeneratedTypeOnly? || s.GeneratedManualOverride?
  }

  /** The status is spelled as a generated one. */
  predicate LooksGenerated(s: Status) {
    IsGenerated(s) || (s.OtherStatus? && GENERATED_PREFIX <= s.text)
  }
}
