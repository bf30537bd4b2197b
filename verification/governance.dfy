/** The governance constants the user editor imports: the recognised personnel
    security levels, the derivation of data levels from a personnel level, and
    the three role classifiers. Their definitions are not part of this model,
    so they are carried as parameters: nothing here assumes the derivation is
    monotone or that the classifiers are disjoint. */
module Governance {

  datatype Governance = Governance(
    /** The `value` of every entry of the personnel-level option list. */
    personLevels: seq<string>,
    deriveDataLevels: string -> seq<string>,
    isDataRole: string -> bool,
    isGovernanceRole: string -> bool,
    isApplicationAdminRole: string -> bool)
}
